/** The window table of the X11 blocker source, as values.

    The source keeps a fixed array of MaxWindows window records and a
    `window_count`; the live entries are the prefix [0, count).  This module
    states each table operation of x11-blocker.c as a function from the old
    table to the new one; the class in module Blocker performs the same
    operations in place and is proved to agree with these functions. */
module Table {

  datatype Option<T> = None | Some(value: T)

  /** MAX_WINDOWS: capacity of the window array. */
  const MaxWindows: nat := 128
  /** unmap_frames: the value `do_unmap` is armed with. */
  const UnmapFrames: int := 4
  /** sizeof(window.name): the class name is copied into 32 bytes. */
  const NameSize: nat := 32

  /** C `unsigned int` (width, height, border width). */
  newtype Uint32 = n: int | 0 <= n < 0x1_0000_0000

  /** An X11 `Window` (an XID, an unsigned long). */
  type Handle = nat

  /** What XGetGeometry writes back into a record: position and size. */
  datatype Geometry = Geometry(x: int, y: int, width: Uint32, height: Uint32)

  /** struct window.  `mapped` is the C `is_mapped`, which only ever holds 0 or 1. */
  datatype Window = Window(
    mapped: bool,
    doUnmap: int,
    width: Uint32,
    height: Uint32,
    x: int,
    y: int,
    borderWidth: Uint32,
    handle: Handle,
    name: string)

  /** A slot as bzalloc leaves it: all fields zero. */
  const Zero := Window(false, 0, 0, 0, 0, 0, 0, 0, "")

  /** The part of struct x11_blocker_source that the tracking engine uses:
      the window array, window_count and the block-list. */
  datatype Tracker = Tracker(windows: seq<Window>, count: nat, blocked: seq<string>)
  {
    /** The array has MAX_WINDOWS slots and the count never passes it. */
    ghost predicate Valid()
    {
      |windows| == MaxWindows && count <= MaxWindows
    }
  }

  /** The table right after x11_blocker_source_create with the given block-list. */
  function Initial(blocked: seq<string>): (s: Tracker)
    ensures s.Valid() && s.count == 0 && s.blocked == blocked
  {
    Tracker(seq(MaxWindows, _ => Zero), 0, blocked)
  }

  /** Some live entry carries handle `h`. */
  ghost predicate Tracked(s: Tracker, h: Handle)
    requires s.Valid()
  {
    exists k :: 0 <= k < s.count && s.windows[k].handle == h
  }

  /** No two live entries carry the same handle. */
  ghost predicate Unique(s: Tracker)
    requires s.Valid()
  {
    forall i, j :: 0 <= i < j < s.count ==> s.windows[i].handle != s.windows[j].handle
  }

  // ---------------------------------------------------------------------------
  // find_window and is_blocked_window

  /** The first index in [from, count) whose handle is `h`, or -1. */
  function FindFrom(ws: seq<Window>, count: nat, h: Handle, from: nat): (r: int)
    requires from <= count <= |ws|
    ensures r == -1 || from <= r < count
    ensures r >= 0 ==> ws[r].handle == h && forall j :: from <= j < r ==> ws[j].handle != h
    ensures r == -1 <==> forall j :: from <= j < count ==> ws[j].handle != h
    decreases count - from
  {
    if from == count then -1
    else if ws[from].handle == h then from
    else FindFrom(ws, count, h, from + 1)
  }

  /** find_window: the smallest live index whose handle is `h`, or -1 when
      no live entry has it. */
  function Find(ws: seq<Window>, count: nat, h: Handle): (r: int)
    requires count <= |ws|
    ensures -1 <= r < count
    ensures r >= 0 ==> ws[r].handle == h && forall j :: 0 <= j < r ==> ws[j].handle != h
    ensures r == -1 <==> forall j :: 0 <= j < count ==> ws[j].handle != h
  {
    FindFrom(ws, count, h, 0)
  }

  /** is_blocked_window: some block-list entry is exactly `name` (strcmp == 0). */
  predicate IsBlocked(blocked: seq<string>, name: string): (b: bool)
    ensures b <==> name in blocked
  {
    exists i :: 0 <= i < |blocked| && blocked[i] == name
  }

  /** strncpy into char[32]: the first at most 32 characters of the class name. */
  function Truncate(name: string): (r: string)
    ensures |r| <= NameSize && r <= name
    ensures |name| <= NameSize ==> r == name
    ensures |name| > NameSize ==> |r| == NameSize
  {
    if |name| <= NameSize then name else name[..NameSize]
  }

  // ---------------------------------------------------------------------------
  // update_window, map_window, unmap_window, remove_window

  /** update_window with mapped = 1: set `is_mapped` and let XGetGeometry write
      position and size.  A failed query (None) writes nothing; the border
      width goes to a local variable and is never stored. */
  function Refresh(w: Window, geometry: Option<Geometry>): (r: Window)
    ensures r.mapped && r.doUnmap == w.doUnmap && r.borderWidth == w.borderWidth &&
            r.handle == w.handle && r.name == w.name
    ensures geometry.None? ==> r == w.(mapped := true)
    ensures geometry.Some? ==> r.x == geometry.value.x && r.y == geometry.value.y &&
                               r.width == geometry.value.width && r.height == geometry.value.height
  {
    var m := w.(mapped := true);
    match geometry
    case None => m
    case Some(g) => m.(x := g.x, y := g.y, width := g.width, height := g.height)
  }

  /** map_window for window `h`, given what XGetClassHint (`hint`, None when it
      fails) and XGetGeometry (`geometry`) answer for it. */
  function AfterMap(s: Tracker, h: Handle, hint: Option<string>, geometry: Option<Geometry>): (r: Tracker)
    requires s.Valid()
    ensures r.Valid() && r.blocked == s.blocked
  {
    if hint.None? || !IsBlocked(s.blocked, hint.value) then s
    else
      var ind := Find(s.windows, s.count, h);
      if ind < 0 && s.count == MaxWindows then s
      else if ind < 0 then
        var slot := s.windows[s.count].(doUnmap := 0, name := Truncate(hint.value), handle := h);
        s.(windows := s.windows[s.count := Refresh(slot, geometry)], count := s.count + 1)
      else
        s.(windows := s.windows[ind := Refresh(s.windows[ind].(handle := h), geometry)])
  }

  /** unmap_window: arm `do_unmap` of the entry for `h`, if there is one. */
  function AfterUnmap(s: Tracker, h: Handle): (r: Tracker)
    requires s.Valid()
    ensures r.Valid() && r.blocked == s.blocked && r.count == s.count
  {
    var ind := Find(s.windows, s.count, h);
    if ind == -1 then s
    else s.(windows := s.windows[ind := s.windows[ind].(doUnmap := UnmapFrames)])
  }

  /** The array after memmove(&ws[ind], &ws[ind+1], count - ind - 1 entries):
      the live entries after `ind` move down one slot and every slot from
      count - 1 on keeps its old value. */
  function Shifted(ws: seq<Window>, count: nat, ind: nat): (r: seq<Window>)
    requires ind < count <= |ws|
    ensures |r| == |ws|
    ensures multiset(r[..count - 1]) + multiset{ws[ind]} == multiset(ws[..count])
  {
    var r := ws[..ind] + ws[ind + 1..count] + ws[count - 1..];
    assert r[..count - 1] == ws[..ind] + ws[ind + 1..count];
    assert ws[..count] == ws[..ind] + [ws[ind]] + ws[ind + 1..count];
    r
  }

  /** Shifted is the only array with the memmove's effect on every slot. */
  lemma ShiftedByCopies(ws: seq<Window>, count: nat, ind: nat, r: seq<Window>)
    requires ind < count <= |ws| && |r| == |ws|
    requires forall j :: 0 <= j < ind ==> r[j] == ws[j]
    requires forall j :: ind <= j < count - 1 ==> r[j] == ws[j + 1]
    requires forall j :: count - 1 <= j < |ws| ==> r[j] == ws[j]
    ensures r == Shifted(ws, count, ind)
  {
    var t := Shifted(ws, count, ind);
    forall j | 0 <= j < |ws|
      ensures r[j] == t[j]
    {
      if j < ind {
        assert t[j] == ws[..ind][j];
      } else if j < count - 1 {
        assert t[j] == ws[ind + 1..count][j - ind];
      } else {
        assert t[j] == ws[count - 1..][j - (count - 1)];
      }
    }
  }

  /** remove_window as written: compacts the array but leaves window_count alone. */
  function AfterRemove(s: Tracker, h: Handle): (r: Tracker)
    requires s.Valid()
    ensures r.Valid() && r.blocked == s.blocked && r.count == s.count
  {
    var ind := Find(s.windows, s.count, h);
    if ind == -1 then s
    else s.(windows := Shifted(s.windows, s.count, ind))
  }

  // ---------------------------------------------------------------------------
  // Properties of the table operations

  /** Tracked is exactly "find_window does not return -1". */
  lemma TrackedIffFound(s: Tracker, h: Handle)
    requires s.Valid()
    ensures Tracked(s, h) <==> Find(s.windows, s.count, h) >= 0
  {
  }

  /** map_window returns before touching the table when the class hint cannot
      be read or its name is not block-listed. */
  lemma MapIgnoresUnlisted(s: Tracker, h: Handle, hint: Option<string>, geometry: Option<Geometry>)
    requires s.Valid()
    requires hint.None? || !IsBlocked(s.blocked, hint.value)
    ensures AfterMap(s, h, hint, geometry) == s
  {
  }

  /** A new block-listed window is dropped when the table is full. */
  lemma MapFullRejects(s: Tracker, h: Handle, hint: Option<string>, geometry: Option<Geometry>)
    requires s.Valid() && s.count == MaxWindows && !Tracked(s, h)
    ensures AfterMap(s, h, hint, geometry) == s
  {
  }

  /** Mapping an already tracked, block-listed window rewrites only its own
      entry: it is marked mapped and, when XGetGeometry answers, takes the
      queried position and size.  do_unmap, name and border width are kept,
      and so is the geometry when the query fails. */
  lemma MapExisting(s: Tracker, h: Handle, name: string, geometry: Option<Geometry>)
    requires s.Valid() && IsBlocked(s.blocked, name)
    requires Find(s.windows, s.count, h) >= 0
    ensures var r := AfterMap(s, h, Some(name), geometry);
            var ind := Find(s.windows, s.count, h);
            var w := s.windows[ind];
            r.count == s.count &&
            r.windows[ind] == (if geometry.Some? then
                                 w.(mapped := true, x := geometry.value.x, y := geometry.value.y,
                                    width := geometry.value.width, height := geometry.value.height)
                               else w.(mapped := true)) &&
            (forall k :: 0 <= k < MaxWindows && k != ind ==> r.windows[k] == s.windows[k])
  {
  }

  /** Mapping a new block-listed window when there is room writes slot
      `count`: do_unmap 0, the truncated name, the handle, mapped, and the
      queried position and size (the slot's old ones when the query fails).
      The count grows by one and every other slot is untouched. */
  lemma MapNew(s: Tracker, h: Handle, name: string, geometry: Option<Geometry>)
    requires s.Valid() && IsBlocked(s.blocked, name)
    requires !Tracked(s, h) && s.count < MaxWindows
    ensures var r := AfterMap(s, h, Some(name), geometry);
            var w := s.windows[s.count].(mapped := true, doUnmap := 0, name := Truncate(name), handle := h);
            r.count == s.count + 1 &&
            r.windows[s.count] == (if geometry.Some? then
                                     w.(x := geometry.value.x, y := geometry.value.y,
                                        width := geometry.value.width, height := geometry.value.height)
                                   else w) &&
            (forall k :: 0 <= k < MaxWindows && k != s.count ==> r.windows[k] == s.windows[k])
  {
  }

  /** After an admitted map with room for it, the window is found, mapped. */
  lemma MapThenFound(s: Tracker, h: Handle, name: string, geometry: Option<Geometry>)
    requires s.Valid() && IsBlocked(s.blocked, name)
    requires Tracked(s, h) || s.count < MaxWindows
    ensures var r := AfterMap(s, h, Some(name), geometry);
            var ind := Find(r.windows, r.count, h);
            ind >= 0 && r.windows[ind].mapped
  {
    TrackedIffFound(s, h);
    var r := AfterMap(s, h, Some(name), geometry);
    var old_ind := Find(s.windows, s.count, h);
    if old_ind < 0 {
      assert r.windows[s.count].handle == h;
      assert forall j :: 0 <= j < s.count ==> r.windows[j].handle != h;
      assert Find(r.windows, r.count, h) == s.count;
    } else {
      assert r.windows[old_ind].handle == h;
      assert forall j :: 0 <= j < old_ind ==> r.windows[j].handle != h;
      assert Find(r.windows, r.count, h) == old_ind;
    }
  }

  /** map_window never creates a second entry for a handle. */
  lemma MapKeepsUnique(s: Tracker, h: Handle, hint: Option<string>, geometry: Option<Geometry>)
    requires s.Valid() && Unique(s)
    ensures Unique(AfterMap(s, h, hint, geometry))
  {
  }

  /** unmap_window on a tracked window sets only that entry's do_unmap to
      unmap_frames; on an untracked window it changes nothing. */
  lemma UnmapArms(s: Tracker, h: Handle)
    requires s.Valid()
    ensures var r := AfterUnmap(s, h);
            var ind := Find(s.windows, s.count, h);
            (ind == -1 ==> r == s) &&
            (ind >= 0 ==> r.windows[ind] == s.windows[ind].(doUnmap := UnmapFrames) &&
                          r.windows[ind].mapped == s.windows[ind].mapped &&
                          forall k :: 0 <= k < MaxWindows && k != ind ==> r.windows[k] == s.windows[k])
  {
  }

  /** remove_window as written: entries before the removed one stay, later
      live entries move down one slot, the slots from count - 1 on keep their
      old values and window_count does not change. */
  lemma RemoveShifts(s: Tracker, h: Handle)
    requires s.Valid()
    ensures var r := AfterRemove(s, h);
            var ind := Find(s.windows, s.count, h);
            r.count == s.count &&
            (ind == -1 ==> r == s) &&
            (ind >= 0 ==>
              (forall k :: 0 <= k < ind ==> r.windows[k] == s.windows[k]) &&
              (forall k :: ind <= k < s.count - 1 ==> r.windows[k] == s.windows[k + 1]) &&
              (forall k :: s.count - 1 <= k < MaxWindows ==> r.windows[k] == s.windows[k]))
  {
  }

  /** remove_window as written never brings in a handle: every live entry
      afterwards is a copy of a live entry before. */
  lemma RemoveAddsNothing(s: Tracker, h: Handle, g: Handle)
    requires s.Valid() && Tracked(AfterRemove(s, h), g)
    ensures Tracked(s, g)
  {
  }

  /** map_window can bring in no handle but its own, and that one only when
      its class name is block-listed. */
  lemma MapAddsOnlyItself(s: Tracker, g: Handle, hint: Option<string>, geometry: Option<Geometry>, h: Handle)
    requires s.Valid() && Tracked(AfterMap(s, g, hint, geometry), h)
    ensures Tracked(s, h) || (h == g && hint.Some? && IsBlocked(s.blocked, hint.value))
  {
  }
}
