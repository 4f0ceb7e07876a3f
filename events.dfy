/** The event switch of x11_blocker_listen as a pure step function.

    The listener thread reads one X event at a time and applies one table
    operation.  The class-hint and geometry queries that map_window makes
    back to the X server are carried in the event as the answers the server
    gave. */
module Events {
  import opened Table

  datatype Event =
    | DestroyNotify(window: Handle)
    | UnmapNotify(window: Handle)
    | MapNotify(window: Handle, hint: Option<string>, geometry: Option<Geometry>)
    | ConfigureNotify(window: Handle, hint: Option<string>, geometry: Option<Geometry>)
    | VisibilityNotify(window: Handle, hint: Option<string>, geometry: Option<Geometry>)
    /** Any other event type (CreateNotify, ReparentNotify, ...): no case in the switch. */
    | OtherEvent

  /** One pass of the switch in x11_blocker_listen. */
  function Step(s: Tracker, e: Event): (r: Tracker)
    requires s.Valid()
    ensures r.Valid() && r.blocked == s.blocked
  {
    match e
    case DestroyNotify(h) => AfterRemove(s, h)
    case UnmapNotify(h) => AfterUnmap(s, h)
    case MapNotify(h, hint, geometry) => AfterMap(s, h, hint, geometry)
    case ConfigureNotify(h, hint, geometry) => AfterMap(s, h, hint, geometry)
    case VisibilityNotify(h, hint, geometry) => AfterMap(s, h, hint, geometry)
    case OtherEvent => s
  }

  /** The listener loop over a finite stream of events, in delivery order. */
  function Run(s: Tracker, es: seq<Event>): (r: Tracker)
    requires s.Valid()
    ensures r.Valid() && r.blocked == s.blocked
    decreases |es|
  {
    if es == [] then s else Run(Step(s, es[0]), es[1..])
  }

  /** `e` is a map-like event for `h` whose class name is block-listed. */
  predicate Admits(e: Event, blocked: seq<string>, h: Handle)
  {
    (e.MapNotify? || e.ConfigureNotify? || e.VisibilityNotify?) &&
    e.window == h && e.hint.Some? && IsBlocked(blocked, e.hint.value)
  }

  /** Only an admitting event can bring a handle into the table. */
  lemma StepAdmitsOnlyListed(s: Tracker, e: Event, h: Handle)
    requires s.Valid() && !Tracked(s, h) && !Admits(e, s.blocked, h)
    ensures !Tracked(Step(s, e), h)
  {
  }

  /** A window whose class name is never block-listed in any event of the
      stream does not enter the table, whatever the other events are. */
  lemma {:induction false} RunAdmitsOnlyListed(s: Tracker, es: seq<Event>, h: Handle)
    requires s.Valid() && !Tracked(s, h)
    requires forall i :: 0 <= i < |es| ==> !Admits(es[i], s.blocked, h)
    ensures !Tracked(Run(s, es), h)
    decreases |es|
  {
    if es != [] {
      StepAdmitsOnlyListed(s, es[0], h);
      var t := Step(s, es[0]);
      assert forall i :: 0 <= i < |es[1..]| ==> es[1..][i] == es[i + 1];
      RunAdmitsOnlyListed(t, es[1..], h);
    }
  }

  /** window_count never goes down: no event shrinks the table. */
  lemma {:induction false} RunNeverShrinks(s: Tracker, es: seq<Event>)
    requires s.Valid()
    ensures Run(s, es).count >= s.count
    decreases |es|
  {
    if es != [] {
      RunNeverShrinks(Step(s, es[0]), es[1..]);
    }
  }

  /** Once the table is full, it stays full and no new handle ever enters:
      every handle tracked afterwards was tracked already. */
  lemma {:induction false} FullStaysClosed(s: Tracker, es: seq<Event>, h: Handle)
    requires s.Valid() && s.count == MaxWindows && !Tracked(s, h)
    ensures Run(s, es).count == MaxWindows && !Tracked(Run(s, es), h)
    decreases |es|
  {
    if es != [] {
      var e := es[0];
      var t := Step(s, e);
      if e.MapNotify? || e.ConfigureNotify? || e.VisibilityNotify? {
        if !Tracked(s, e.window) {
          MapFullRejects(s, e.window, e.hint, e.geometry);
        } else if Tracked(t, h) {
          MapAddsOnlyItself(s, e.window, e.hint, e.geometry, h);
        }
      } else if e.DestroyNotify? && Tracked(t, h) {
        RemoveAddsNothing(s, e.window, h);
      }
      FullStaysClosed(t, es[1..], h);
    }
  }

  /** Map, unmap and the other non-destroy events never produce two live
      entries with one handle. */
  lemma StepKeepsUnique(s: Tracker, e: Event)
    requires s.Valid() && Unique(s) && !e.DestroyNotify?
    ensures Unique(Step(s, e))
  {
  }
}
