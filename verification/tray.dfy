/**
 * The tray's state-reconciliation core: which single active connection's icon is on
 * display, kept as a primary and a shown reference into the active-connection rows and
 * updated on row inserts, imminent row removals, data changes and primary-connection
 * changes. Icon changes go through a pending class that a zero-delay timer flushes.
 */
module Tray {
  import opened Wrappers
  import opened Connections
  import opened Actions

  datatype State = State(
    rows: seq<Row>,          // the active connections, in model order
    nextKey: nat,            // the key the next inserted row receives
    primary: Option<Key>,    // the row of the service's primary connection, if resolved
    shown: Option<Key>,      // the row whose icon class is (to be) displayed
    iconCurrent: Icon,       // the class on screen
    iconPending: Icon,       // the class to put on screen at the next flush
    iconTimerArmed: bool,    // the zero-delay icon timer is started and has not fired
    repaints: nat,           // how many times the tray icon image has been set
    actions: ActionFlags,    // the context-menu action flags
    stateTimerArmed: bool)   // the action-state timer is started and has not fired

  // ---------------------------------------------------------------- icon debouncing

  /** Sets the tray icon image from the current class (re-resolving it in the theme). */
  function RefreshIcon(s: State): (r: State)
    ensures r.repaints == s.repaints + 1
    ensures r == s.(repaints := r.repaints)
  {
    s.(repaints := s.repaints + 1)
  }

  /**
   * Makes `ref` the shown connection and computes the icon class to show for it: the
   * class of its row, or the offline class when nothing (valid) is shown. The icon itself
   * is only requested: the zero-delay timer is (re)started.
   */
  function SetShown(s: State, ref: Option<Key>): (r: State)
    ensures r.shown == ref && r.iconTimerArmed
    ensures ref.None? ==> r.iconPending == NetworkOffline
    ensures ref.Some? && !Present(s.rows, ref.value) ==> r.iconPending == NetworkOffline
    ensures KeysDistinct(s.rows) ==>
      forall i :: 0 <= i < |s.rows| && ref == Some(s.rows[i].key) ==> r.iconPending == s.rows[i].icon
    ensures r == s.(shown := ref, iconPending := r.iconPending, iconTimerArmed := true)
  {
    s.(shown := ref, iconPending := IconOf(s.rows, ref), iconTimerArmed := true)
  }

  /** Brings the displayed class up to date with the pending one, repainting only on a change. */
  function UpdateIcon(s: State): (r: State)
    ensures r.iconCurrent == s.iconPending
    ensures r.repaints == if s.iconCurrent == s.iconPending then s.repaints else s.repaints + 1
    ensures r == s.(iconCurrent := r.iconCurrent, repaints := r.repaints)
  {
    if s.iconCurrent == s.iconPending then s
    else RefreshIcon(s.(iconCurrent := s.iconPending))
  }

  /** The zero-delay icon timer fires, if it was started: one flush for any number of requests. */
  function IconTimeout(s: State): (r: State)
    ensures !r.iconTimerArmed
    ensures s.iconTimerArmed ==> r.iconCurrent == s.iconPending
    ensures s.iconTimerArmed ==> r.repaints <= s.repaints + 1
    ensures !s.iconTimerArmed ==> r == s
    ensures r.rows == s.rows && r.primary == s.primary && r.shown == s.shown
    ensures r.iconPending == s.iconPending
  {
    if s.iconTimerArmed then UpdateIcon(s.(iconTimerArmed := false)) else s
  }

  /** The desktop's icon theme changed: the same class is painted again from the new theme. */
  function ThemeChange(s: State): (r: State)
    ensures r.iconCurrent == s.iconCurrent && r.iconPending == s.iconPending
    ensures r.primary == s.primary && r.shown == s.shown && r.rows == s.rows
    ensures r.repaints == s.repaints + 1
  {
    RefreshIcon(s)
  }

  // ---------------------------------------------------------------- reconciliation

  /**
   * Re-evaluates which connection to show after row `i` appeared, changed, or is about
   * to be removed (`removing`). A primary or activating connection takes the display; a
   * terminal or leaving one gives it back to the primary connection or to nothing, and
   * a leaving primary connection stops being primary.
   */
  function UpdateState(s: State, i: nat, removing: bool): (r: State)
    requires i < |s.rows|
    ensures r.rows == s.rows && r.nextKey == s.nextKey
    ensures r.iconCurrent == s.iconCurrent && r.repaints == s.repaints
    ensures r.actions == s.actions && r.stateTimerArmed == s.stateTimerArmed
    // the primary reference can be dropped here but never moved to another row
    ensures r.primary == s.primary || r.primary.None?
    // the display moves only to this row, to the primary connection or to nothing
    ensures r.shown == s.shown || r.shown == r.primary || r.shown == Some(s.rows[i].key)
    ensures r.shown == Some(s.rows[i].key) && r.shown != s.shown ==>
      !removing && !Terminal(s.rows[i].state)
    // a leaving or terminal row keeps no reference pointing at it
    ensures removing || Terminal(s.rows[i].state) ==>
      r.primary != Some(s.rows[i].key) && r.shown != Some(s.rows[i].key)
    // a state that was touched has a freshly computed pending class and a started timer
    ensures r != s ==> r.iconTimerArmed && r.iconPending == IconOf(s.rows, r.shown)
  {
    var row := s.rows[i];
    var isPrimary := s.primary == Some(row.key);
    if removing || Terminal(row.state) then
      if isPrimary then SetShown(s.(primary := None), None)
      else if s.shown == Some(row.key) then SetShown(s, s.primary)
      else s
    else
      if isPrimary || row.state == Activating then SetShown(s, Some(row.key))
      else if s.shown == Some(row.key) then SetShown(s, s.primary)
      else s
  }

  /**
   * Runs the reconciliation for rows `first` through `last` in ascending order, as the
   * row-inserted, rows-about-to-be-removed and data-changed handlers do.
   */
  function Dispatch(s: State, first: nat, last: int, removing: bool): (r: State)
    requires last < |s.rows|
    ensures r.rows == s.rows && r.nextKey == s.nextKey
    ensures r.iconCurrent == s.iconCurrent && r.repaints == s.repaints
    ensures r.actions == s.actions && r.stateTimerArmed == s.stateTimerArmed
    ensures r.primary == s.primary || r.primary.None?
    ensures r != s ==> r.iconTimerArmed && r.iconPending == IconOf(s.rows, r.shown)
    decreases last - first + 1
  {
    if first > last then s
    else Dispatch(UpdateState(s, first, removing), first + 1, last, removing)
  }

  /**
   * The service announced a new primary connection; `service` is its uuid, or `None`
   * when there is no valid primary connection. A uuid not (yet) in the rows is ignored.
   * At most one row may carry the announced uuid.
   */
  function PrimaryConnectionUpdate(s: State, service: Option<Uuid>): (r: State)
    requires service.Some? ==> |Matches(s.rows, service.value)| <= 1
    ensures r.rows == s.rows && r.nextKey == s.nextKey
    ensures r.iconCurrent == s.iconCurrent && r.repaints == s.repaints
    ensures service.None? ==>
      r.primary.None? && r.shown.None? && r.iconPending == NetworkOffline && r.iconTimerArmed
    ensures service.Some? && (forall j :: 0 <= j < |s.rows| ==> s.rows[j].uuid != service.value) ==>
      r == s
    ensures forall j :: 0 <= j < |s.rows| && service == Some(s.rows[j].uuid) ==>
      && (r.primary == Some(s.rows[j].key) <==> !Terminal(s.rows[j].state))
      && (Terminal(s.rows[j].state) ==> r.primary.None?)
      && r.shown == r.primary
      && r.iconPending == IconOf(s.rows, r.shown)
  {
    match service
    case None => SetShown(s.(primary := None), None)
    case Some(u) =>
      var l := Matches(s.rows, u);
      if |l| == 0 then s
      else
        var i := l[0];
        assert i in l;
        assert forall j :: 0 <= j < |s.rows| && s.rows[j].uuid == u ==> j == i by {
          forall j | 0 <= j < |s.rows| && s.rows[j].uuid == u ensures j == i {
            assert j in l;
          }
        }
        var t := s.(primary := Some(s.rows[i].key));
        UpdateState(t, i, false)
  }

  // ---------------------------------------------------------------- row events

  /** Connections `conns` are inserted at position `at`; then the row-inserted handler runs. */
  function RowsInserted(s: State, at: nat, conns: seq<Connection>): (r: State)
    requires at <= |s.rows|
    ensures |r.rows| == |s.rows| + |conns| && r.nextKey == s.nextKey + |conns|
    ensures forall j :: 0 <= j < at ==> r.rows[j] == s.rows[j]
    ensures forall j :: at <= j < |s.rows| ==> r.rows[j + |conns|] == s.rows[j]
    ensures forall j :: 0 <= j < |conns| ==>
      r.rows[at + j].key == s.nextKey + j && Holds(r.rows[at + j], conns[j])
    ensures r.iconCurrent == s.iconCurrent && r.repaints == s.repaints
    ensures r.primary == s.primary || r.primary.None?
  {
    var added := NewRows(conns, s.nextKey);
    var rows := s.rows[..at] + added + s.rows[at..];
    Dispatch(s.(rows := rows, nextKey := s.nextKey + |conns|), at, at + |conns| - 1, false)
  }

  /** Drops a reference whose row is gone, as a persistent index becomes invalid. */
  function Revalidate(rows: seq<Row>, ref: Option<Key>): (r: Option<Key>)
    ensures r.Some? ==> Present(rows, r.value)
    ensures ref.Some? && Present(rows, ref.value) ==> r == ref
    ensures r.Some? ==> r == ref
  {
    if ref.Some? && !Present(rows, ref.value) then None else ref
  }

  /**
   * Rows `first` through `last` are removed: the about-to-be-removed handler runs while
   * they are still there, then they disappear and references to them become invalid.
   */
  function RowsRemoved(s: State, first: nat, last: nat): (r: State)
    requires first <= last < |s.rows|
    ensures r.rows == s.rows[..first] + s.rows[last + 1..] && r.nextKey == s.nextKey
    ensures r.primary.Some? ==> Present(r.rows, r.primary.value)
    ensures r.shown.Some? ==> Present(r.rows, r.shown.value)
    ensures r.primary == s.primary || r.primary.None?
    ensures r.iconCurrent == s.iconCurrent && r.repaints == s.repaints
  {
    var d := Dispatch(s, first, last, true);
    var rows := d.rows[..first] + d.rows[last + 1..];
    d.(rows := rows, primary := Revalidate(rows, d.primary), shown := Revalidate(rows, d.shown))
  }

  /** Rows `first`, `first + 1`, ... take the statuses `changes`; then the data-changed handler runs. */
  function RowsChanged(s: State, first: nat, changes: seq<Status>): (r: State)
    requires first + |changes| <= |s.rows|
    ensures |r.rows| == |s.rows| && r.nextKey == s.nextKey
    ensures forall j :: 0 <= j < |s.rows| ==> r.rows[j].key == s.rows[j].key && r.rows[j].uuid == s.rows[j].uuid
    ensures forall j :: 0 <= j < |changes| ==>
      r.rows[first + j].state == changes[j].state && r.rows[first + j].icon == changes[j].icon
    ensures forall j :: 0 <= j < |s.rows| && !(first <= j < first + |changes|) ==> r.rows[j] == s.rows[j]
    ensures r.iconCurrent == s.iconCurrent && r.repaints == s.repaints
    ensures r.primary == s.primary || r.primary.None?
  {
    var rows := ApplyStatuses(s.rows, first, changes);
    Dispatch(s.(rows := rows), first, first + |changes| - 1, false)
  }

  // ---------------------------------------------------------------- action flags

  /** One of the networking / wireless / wireless-hardware switches changed: (re)start the timer. */
  function NetworkFlagsChanged(s: State): (r: State)
    ensures r.stateTimerArmed && r.actions == s.actions
    ensures r == s.(stateTimerArmed := true)
  {
    s.(stateTimerArmed := true)
  }

  /**
   * The action-state timer fires, if it was started, and the menu flags are derived from
   * the service's switches as they are at that moment.
   */
  function StateTimeout(s: State, networking: bool, wireless: bool, wirelessHardware: bool): (r: State)
    ensures !r.stateTimerArmed
    ensures s.stateTimerArmed ==> r.actions == SetActionsStates(networking, wireless, wirelessHardware)
    ensures !s.stateTimerArmed ==> r == s
    ensures r.rows == s.rows && r.primary == s.primary && r.shown == s.shown
    ensures r.iconCurrent == s.iconCurrent && r.iconPending == s.iconPending
  {
    if s.stateTimerArmed
    then s.(actions := SetActionsStates(networking, wireless, wirelessHardware), stateTimerArmed := false)
    else s
  }

  // ---------------------------------------------------------------- construction

  /**
   * The tray as constructed over the rows the model already holds: no primary and nothing
   * shown, an out-of-range current class painted at once, and the offline class pending.
   */
  function Init(conns: seq<Connection>): (r: State)
    ensures |r.rows| == |conns| && r.nextKey == |conns|
    ensures forall j :: 0 <= j < |conns| ==> r.rows[j].key == j && Holds(r.rows[j], conns[j])
    ensures r.primary.None? && r.shown.None?
    ensures r.iconCurrent == Invalid && r.iconPending == NetworkOffline && r.iconTimerArmed
    ensures r.repaints == 1 && !r.stateTimerArmed && r.actions == InitialActions()
  {
    var s := State(NewRows(conns, 0), |conns|, None, None, Invalid, Invalid, false, 0,
                   InitialActions(), false);
    RefreshIcon(SetShown(s, None))
  }

  // ---------------------------------------------------------------- event stream

  /** The notifications the tray reacts to. */
  datatype Event =
    | Inserted(at: nat, conns: seq<Connection>)
    | Removed(first: nat, last: nat)
    | Changed(first: nat, changes: seq<Status>)
    | PrimaryChanged(service: Option<Uuid>)
    | IconTimer
    | ThemeChanged
    | FlagsChanged
    | StateTimer(networking: bool, wireless: bool, wirelessHardware: bool)

  /**
   * The tray after one notification, or `None` for a notification the model cannot emit
   * (a row range outside the rows) or one that trips the assertion that at most one row
   * carries the primary connection's uuid.
   */
  function Step(s: State, e: Event): (r: Option<State>)
    ensures r.None? <==>
      || (e.Inserted? && e.at > |s.rows|)
      || (e.Removed? && !(e.first <= e.last < |s.rows|))
      || (e.Changed? && e.first + |e.changes| > |s.rows|)
      || (e.PrimaryChanged? && e.service.Some? && |Matches(s.rows, e.service.value)| > 1)
  {
    match e
    case Inserted(at, conns) =>
      if at <= |s.rows| then Some(RowsInserted(s, at, conns)) else None
    case Removed(first, last) =>
      if first <= last < |s.rows| then Some(RowsRemoved(s, first, last)) else None
    case Changed(first, changes) =>
      if first + |changes| <= |s.rows| then Some(RowsChanged(s, first, changes)) else None
    case PrimaryChanged(service) =>
      if service.Some? && |Matches(s.rows, service.value)| > 1 then None
      else Some(PrimaryConnectionUpdate(s, service))
    case IconTimer => Some(IconTimeout(s))
    case ThemeChanged => Some(ThemeChange(s))
    case FlagsChanged => Some(NetworkFlagsChanged(s))
    case StateTimer(networking, wireless, hardware) =>
      Some(StateTimeout(s, networking, wireless, hardware))
  }

  /** The tray after a sequence of notifications, stopping at the first one `Step` refuses. */
  function Run(s: State, events: seq<Event>): Option<State>
    decreases |events|
  {
    if |events| == 0 then Some(s)
    else match Step(s, events[0])
      case None => None
      case Some(t) => Run(t, events[1..])
  }

  // ---------------------------------------------------------------- invariant

  /**
   * The consistency the handlers maintain, except for references to rows in `stale`
   * (rows whose data changed and whose handler has not run yet):
   *  - row keys are distinct and below `nextKey`;
   *  - primary and shown refer to rows that are present;
   *  - the primary connection is not terminal;
   *  - the shown connection is the primary one or an activating one;
   *  - the pending class is the shown row's class (offline for none);
   *  - with the icon timer idle, the pending class is already on screen.
   */
  ghost predicate InvExcept(s: State, stale: set<Key>)
  {
    && KeysDistinct(s.rows) && KeysBelow(s.rows, s.nextKey)
    && (s.primary.Some? ==> Present(s.rows, s.primary.value))
    && (s.shown.Some? ==> Present(s.rows, s.shown.value))
    && (s.primary.Some? && s.primary.value !in stale ==>
          !Terminal(s.rows[Find(s.rows, s.primary.value).value].state))
    && (s.shown.Some? && s.shown.value !in stale ==>
          s.shown == s.primary || s.rows[Find(s.rows, s.shown.value).value].state == Activating)
    && ((s.shown.Some? && s.shown.value in stale) || s.iconPending == IconOf(s.rows, s.shown))
    && (!s.iconTimerArmed ==> s.iconCurrent == s.iconPending)
  }

  ghost predicate Inv(s: State)
  {
    InvExcept(s, {})
  }
}
