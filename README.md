# X11 window blocker: the window-tracking engine in Dafny

This project models the engine of the OBS "X11 blocker" source (`x11-blocker.c`).
The engine watches X11 window events. It keeps a table of the windows whose
class name is on a block-list. Once per frame it tells the renderer where to
draw an occluding image over each of those windows.

What is modelled:

- **The window table** (`Table`, `Blocker`). This is the fixed array of 128 `struct window`
  records and its `window_count`. The live entries are the prefix `[0, count)`.
  Each table operation is written twice. `Table` gives a pure function from the
  old table to the new one (`Find`, `AfterMap`, `AfterUnmap`, `AfterRemove`).
  The class `Blocker.BlockerSource` performs the same operation in place on an
  `array<Window>`, with the same loops as the C code, and is proved to end in the
  state the function computes.
- **The block-list** (`Table.IsBlocked`, `BlockerSource.IsBlockedWindow`,
  `BlockerSource.Update`). It is matched by exact string equality and rebuilt in
  full on every settings update.
- **The event switch** of the listener thread (`Events.Step`, `Events.Run`,
  `BlockerSource.HandleEvent`, `BlockerSource.Listen`):
  - `DestroyNotify` removes the window.
  - `UnmapNotify` unmaps it.
  - `MapNotify`, `ConfigureNotify` and `VisibilityNotify` map it.
  - Every other event type is ignored.

  The event carries the server's answers to the two queries that `map_window`
  makes: `XGetClassHint` (`None` when it fails) and `XGetGeometry` (`None` when
  it fails, in which case the geometry fields are left as they were).
- **The per-frame pass** of `x11_blocker_source_render` (`Render`,
  `BlockerSource.Render`). It hides and re-arms each entry whose `do_unmap` is 0.
  Otherwise it emits the padded rectangle of each mapped entry. The rectangles
  are returned instead of being drawn.
- **The default directory** shown by the properties dialog (`Paths`).
- **`fill_texture`** (`Texture`), and the call that passes it opaque black.

The model follows the code where the code and the design of the system differ:

- There is no `CreateNotify` case, so creating a window admits nothing.
- `map_window` sets `do_unmap` to 0 for new entries only. It never cancels a
  pending unmap of an entry that is already tracked.
- The render pass never decrements `do_unmap`.
- `remove_window` never decrements `window_count`.
- The border width returned by `XGetGeometry` goes to a local variable and is
  never stored.

Two of these, the `remove_window` count and the missing countdown, are
written up under "Findings". Each has a corrected definition beside it. The
event dispatch itself (`Events.Step` and the class) stays as written.

## Model

| member | source | states |
|---|---|---|
| `Table.Initial` | x11-blocker.c:338-351 | a newly created source has a valid, empty table (count 0) and the given block-list |
| `Table.FindFrom` | x11-blocker.c:84-89 | the scan from index `from` returns the first index in `[from, count)` holding the handle, or -1 exactly when none does |
| `Table.Find` | x11-blocker.c:83-90 | find_window returns the smallest live index whose handle is the argument, or -1 exactly when no live entry has it |
| `Table.TrackedIffFound` | x11-blocker.c:83-90 | a handle is held by some live entry if and only if find_window does not return -1 |
| `Table.IsBlocked` | x11-blocker.c:92-100 | a name is blocked exactly when it is one of the block-list strings |
| `Table.Truncate` | x11-blocker.c:143 | the stored name is a prefix of the class name: the whole name when it has at most 32 characters, otherwise exactly its first 32 |
| `Table.Refresh` | x11-blocker.c:102-115 | the entry becomes mapped. Handle, do_unmap, name and border width are kept. When the geometry query answers, position and size are the queried ones; when it fails, nothing else changes |
| `Table.AfterMap` | x11-blocker.c:117-152 | map_window keeps the array at 128 slots, the count at or below 128, and the block-list unchanged |
| `Table.MapIgnoresUnlisted` | x11-blocker.c:123-127 | when the class hint cannot be read or its name is not block-listed, the table is unchanged |
| `Table.MapFullRejects` | x11-blocker.c:133-136 | a handle that is not tracked is dropped when the count is 128, and nothing changes |
| `Table.MapExisting` | x11-blocker.c:129-150 | for a tracked handle, only its entry changes. It becomes mapped and takes the queried position and size; do_unmap, name, border width, and the geometry when the query fails, are kept. The count is unchanged |
| `Table.MapNew` | x11-blocker.c:130-150 | a new handle with room is written at slot `count` as a whole: do_unmap 0, the truncated name, the handle, mapped, and the queried position and size (the slot's old ones when the query fails). The count grows by one and every other slot is unchanged |
| `Table.MapThenFound` | x11-blocker.c:130-150 | after an admitted map that fits, find_window finds the handle and its entry is mapped |
| `Table.MapKeepsUnique` | x11-blocker.c:129-139 | map_window never creates a second live entry for a handle |
| `Table.MapAddsOnlyItself` | x11-blocker.c:123-150 | a handle tracked after map_window was tracked before, or it is the mapped window and its class name is block-listed |
| `Table.AfterUnmap` | x11-blocker.c:154-166 | unmap_window keeps the count and the block-list |
| `Table.UnmapArms` | x11-blocker.c:154-166 | untracked handle: no change. Tracked handle: only its do_unmap becomes unmap_frames (4); mapped flag and every other slot are unchanged |
| `Table.Shifted` | x11-blocker.c:181 | after the memmove, the first count - 1 slots together with the removed entry hold exactly the old live entries |
| `Table.ShiftedByCopies` | x11-blocker.c:181 | an array that holds the old slots before the index, old slot k+1 at each k in `[ind, count-1)` and the old slots from count-1 on is exactly the result of the memmove |
| `Table.AfterRemove` | x11-blocker.c:169-182 | remove_window keeps the count and the block-list |
| `Table.RemoveShifts` | x11-blocker.c:169-182 | untracked handle: no change. Otherwise: slots before the index are unchanged, slot k in `[ind, count-1)` receives old slot k+1, slots from count-1 on are unchanged, and the count is unchanged |
| `Table.RemoveAddsNothing` | x11-blocker.c:169-182 | every handle live after remove_window was live before |
| `Events.Step` | x11-blocker.c:203-240 | one event keeps the table valid and the block-list unchanged |
| `Events.Run` | x11-blocker.c:199-242 | a stream of events keeps the table valid and the block-list unchanged |
| `Events.StepAdmitsOnlyListed` | x11-blocker.c:203-240 | an untracked handle becomes tracked only through a map, configure or visibility event for it whose class name is block-listed |
| `Events.RunAdmitsOnlyListed` | x11-blocker.c:199-242 | a window whose class name is block-listed in no event of the stream never enters the table |
| `Events.RunNeverShrinks` | x11-blocker.c:199-242 | no sequence of events lowers window_count |
| `Events.FullStaysClosed` | x11-blocker.c:133-136 | once the table holds 128 entries, it stays full and no new handle ever enters |
| `Events.StepKeepsUnique` | x11-blocker.c:209-236 | unmap, map, configure, visibility and ignored events keep live handles unique |
| `Render.Padded` | x11-blocker.c:426-428 | the rectangle starts 50 units left of and above the window; width and height are the window's plus 100, modulo 2^32 |
| `Render.Tick` | x11-blocker.c:421-424 | an entry at do_unmap 0 is hidden and set to unmap_frames with every other field kept; any other entry is unchanged; afterwards do_unmap is never 0 |
| `Render.RenderTable` | x11-blocker.c:417-424 | after a frame every live entry has do_unmap != 0, and slots past the count are unchanged |
| `Render.Frames` | x11-blocker.c:415-430 | frames never touch slots past the count, and after at least one frame every live entry has do_unmap != 0 |
| `Render.AddWrap` | x11-blocker.c:428 | unsigned addition equals the true sum when it does not pass 2^32 |
| `Render.Drawn` | x11-blocker.c:417-430 | a frame draws at most one rectangle per live entry, and each one is the padded rectangle of a live entry that is armed and mapped |
| `Render.DrawnExactly` | x11-blocker.c:421-429 | a rectangle is drawn if and only if it is the padded rectangle of some live entry with do_unmap != 0 and is_mapped set |
| `Render.PaddedCovers` | x11-blocker.c:415-428 | without wrap-around, the drawn rectangle covers the window with 50 units to spare on every side |
| `Render.RenderArmsAll` | x11-blocker.c:420-424 | after a frame every live entry has do_unmap != 0. An entry that was at 0 becomes hidden with do_unmap = unmap_frames (4) and every other field kept; the other entries and every slot past the count are unchanged |
| `Render.RenderSettles` | x11-blocker.c:417-430 | a second frame in a row leaves the table as the first one did |
| `Render.ArmedStaysPut` | x11-blocker.c:421-430 | an entry with do_unmap != 0 is unchanged by any number of frames |
| `Blocker.BlockerSource.constructor` | x11-blocker.c:338-351 | the new object holds `Table.Initial` of the settings and stores the image path |
| `Blocker.BlockerSource.AddBlockedWindow` | x11-blocker.c:58-65 | the name is appended to the block-list |
| `Blocker.BlockerSource.Update` | x11-blocker.c:313-335 | the block-list becomes exactly the settings strings in order, old entries discarded. The image path is stored and the window table is untouched |
| `Blocker.BlockerSource.FindWindow` | x11-blocker.c:83-90 | the loop returns `Table.Find` of the current table |
| `Blocker.BlockerSource.IsBlockedWindow` | x11-blocker.c:92-100 | the loop returns true exactly when some block-list entry equals the name |
| `Blocker.BlockerSource.UpdateWindow` | x11-blocker.c:102-115 | only the given slot changes: it is marked mapped and receives the queried geometry |
| `Blocker.BlockerSource.MapWindow` | x11-blocker.c:117-152 | the in-place map leaves the object in state `Table.AfterMap` of the old state |
| `Blocker.BlockerSource.UnmapWindow` | x11-blocker.c:154-166 | the in-place unmap leaves the object in state `Table.AfterUnmap` of the old state |
| `Blocker.BlockerSource.RemoveWindow` | x11-blocker.c:169-182 | the memmove loop leaves the object in state `Table.AfterRemove` of the old state |
| `Blocker.BlockerSource.ShiftDown` | x11-blocker.c:181 | the copy loop leaves the array equal to `Table.Shifted` of the old one; window_count is not touched |
| `Blocker.BlockerSource.HandleEvent` | x11-blocker.c:203-240 | dispatching one event leaves the object in state `Events.Step` of the old state |
| `Blocker.BlockerSource.Listen` | x11-blocker.c:199-242 | handling a stream of events in order leaves the object in state `Events.Run` of the old state |
| `Blocker.BlockerSource.Render` | x11-blocker.c:406-430 | no texture: nothing changes and nothing is drawn. Otherwise the table becomes `Render.RenderTable` of the old one and the returned rectangles are `Render.Drawn` of the old one, in index order |
| `Paths.Slashed` | x11-blocker.c:479 | same length, no backslash left, each backslash replaced by a slash and every other character kept |
| `Paths.LastSlash` | x11-blocker.c:480 | the index of the last slash, or -1 exactly when there is none |
| `Paths.DirPrefix` | x11-blocker.c:475-483 | the default path is a prefix of the slash-converted path, no longer than the path |
| `Paths.DirPrefixSpec` | x11-blocker.c:475-483 | the default path is a prefix of the slash-converted path. If the path has a separator, the result ends in `/` and no separator follows it in the path; otherwise the result is the whole path |
| `Paths.DirPrefixIdempotent` | x11-blocker.c:475-483 | taking the directory of the result again changes nothing |
| `Texture.FillTexture` | x11-blocker.c:254-263 | each of the 32 x 32 pixels holds the given value, and the rest of the buffer is unchanged |
| `Texture.FillFallback` | x11-blocker.c:289 | the call writes 0xFF000000 (opaque black) into the 32 x 32 pixels of the buffer it is given, and the rest of the buffer is unchanged |
| `Findings.RemoveLastKeepsIt` | x11-blocker.c:169-182 | as written, removing the last live entry changes nothing and the window stays tracked |
| `Findings.RemoveDuplicatesLast` | x11-blocker.c:169-182 | as written, removing any other entry leaves the last live entry in two live slots, so handles are no longer unique |
| `Findings.AfterRemoveFixed` | x11-blocker.c:169-182 | the corrected removal keeps the table valid and the block-list unchanged |
| `Findings.RemoveFixedRemoves` | x11-blocker.c:169-182 | corrected removal: the live entries become the old ones minus the removed one, in order. The count drops by one, handles stay unique and the window is no longer tracked |
| `Findings.UnmapNeverHides` | x11-blocker.c:415-430 | as written, after an unmap a mapped window stays mapped and is drawn over in every later frame |
| `Findings.NewWindowHidden` | x11-blocker.c:140-142 | as written, a newly admitted window starts with do_unmap 0: it is not drawn in the next frame, that frame hides it, and no later frame shows it again |
| `Findings.TickFixed` | x11-blocker.c:420-424 | corrected frame for one entry: a pending do_unmap counts down by one, the entry is hidden when it reaches 0, it is never mapped by the frame, and the other fields are kept |
| `Findings.RenderTableFixed` | x11-blocker.c:417-424 | a corrected frame never maps a live entry and leaves slots past the count unchanged |
| `Findings.FramesFixed` | x11-blocker.c:415-430 | any number of corrected frames never maps a live entry and leaves slots past the count unchanged |
| `Findings.CountsDown` | x11-blocker.c:420-424 | corrected pass: after n frames, do_unmap d becomes max(d - n, 0); the entry stays mapped only if it was and either d is 0 or fewer than d frames have passed |
| `Findings.DebounceHides` | x11-blocker.c:154-166 | corrected pass: after an unmap, a mapped window is still mapped after n frames exactly when n < unmap_frames |
| `Findings.SkypeAsWritten` | x11-blocker.c:199-242 | as written, window 7 of class "skype" is not drawn in the first frame after its map, which would hide it. When it is unmapped before any frame, it is still mapped four frames later, and it is still tracked after its destroy |
| `Findings.SkypeFixed` | x11-blocker.c:199-242 | with the corrections, the same window is mapped after three frames, hidden after four, and gone after its destroy |

## Left out

- Xlib calls (`XOpenDisplay`, `XSelectInput`, `XNextEvent`, `XGetInputFocus`, `XGetClassHint`, `XGetGeometry`): these are display-server I/O. Their answers come in as event payloads.
- The listener thread (`pthread_create`, `pthread_cancel`) and the unused mutex: events are handled one at a time, and a frame never runs in the middle of an event. The source's unsynchronised sharing of the table between the two threads is not modelled.
- OBS glue (image-file and texture loading and freeing, `obs_source_draw`, property and editable-list registration, `obs_module_load`, the source-info table, the name, size, show, hide, activate and deactivate callbacks): these are calls into the host. The render pass returns rectangles instead of drawing them.
- `Blocker.BlockerSource.Update`: does not model the image unload and reload or the start of the listener that follow the settings change. These are graphics and thread calls. It also does not model the block-list strings that are never freed.
- `get_modified_timestamp`, `update_time_elapsed` and the tick callback: these are file-system I/O and unused timing.
- `printf` and `print_window`: logging only.
- `main` in x11-blocker.c and all of x11-test.c: a manual harness and a bare event loop with no logic beyond I/O.
- `Render.Padded`: `x - 50` and `y - 50` are computed on unbounded integers. Signed overflow, which is undefined in C, is not modelled; X coordinates are 16-bit. Width and height do wrap modulo 2^32, as `unsigned int` does.
- `Texture.FillTexture`: the buffer is taken to be tightly packed, as the source assumes. The line size that `gs_texture_map` returns is not used by the source either. Creating and mapping the texture are graphics calls.
- The no-image branch of `x11_blocker_source_load` (x11-blocker.c:283-296) never gives the source a texture. The texture that `gs_texture_create` returns is discarded, and `gs_texture_map` is called on `context->image.texture`, which is still null there. So with no image file set, `fill_texture` is never reached, and `x11_blocker_source_render` returns at line 411-412 on every frame. `Blocker.BlockerSource.Render` then only ever runs with `hasTexture == false`: no overlay is drawn and the per-frame pass never runs. The solid-black fallback that the design describes does not happen. `Texture.FillFallback` models only what the call at line 289 would write.
- Strings are sequences of characters without NUL bytes. `strcmp` and `strncpy` become equality and a prefix of at most 32 characters. When the name fills all 32 bytes it is not NUL-terminated; that is not represented.
- The corrected removal and the corrected render pass under "Findings" are not wired into `Events.Step` or the class. The dispatch is modelled as written.
- `Findings.DebounceHides`: the corrected countdown does not cancel a pending hide when the window is mapped again, because `map_window` keeps `do_unmap` of a tracked entry. An unmap quickly followed by a re-map therefore still hides the window on frame `unmap_frames`; the design's flicker-free re-map is not given by the correction.

## Findings

| source | as written | input that shows it | evidently intended | confidence | as-written member | corrected member |
|---|---|---|---|---|---|---|
| x11-blocker.c:169-182 | `remove_window` moves the later entries down but never decrements `window_count` | table `[7]` (count 1), `DestroyNotify(7)`: the memmove copies nothing and window 7 is still tracked; with `[7, 8]`, removing 7 leaves `[8, 8]` live | the destroyed entry leaves the table and the count drops by one, so the table never fills up for good | high, not executed | `Findings.RemoveLastKeepsIt`, `Findings.RemoveDuplicatesLast` | `Findings.RemoveFixedRemoves` |
| x11-blocker.c:415-430 | the render pass re-arms `do_unmap` to 4 when it is 0 and never counts it down, so an entry past its first frame is never hidden again | window 7 of class "skype" mapped, then `UnmapNotify(7)` before any frame, then any number of frames: it is drawn over in every frame (`Findings.SkypeAsWritten`). Also, a newly mapped window starts at `do_unmap` 0, so its first frame hides it and it stays hidden until another map, configure or visibility event (`Findings.NewWindowHidden`) | after an unmap, the overlay stays for `unmap_frames` - 1 frames and is removed on frame `unmap_frames` | medium, not executed | `Findings.UnmapNeverHides` | `Findings.DebounceHides` |
