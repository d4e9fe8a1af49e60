/**
 * Properties of the reconciliation core: the per-branch behaviour of the update policy,
 * the consistency invariant every notification preserves, the removal, precedence and
 * debounce laws, and the idempotence of repeated notifications.
 */
module TrayProofs {
  import opened Wrappers
  import opened Connections
  import opened Tray
  import opened Actions

  // ---------------------------------------------------------------- policy branches

  /** A leaving or terminal primary connection takes primary and shown down with it. */
  lemma TerminalPrimaryClearsBoth(s: State, i: nat, removing: bool)
    requires i < |s.rows|
    requires removing || Terminal(s.rows[i].state)
    requires s.primary == Some(s.rows[i].key)
    ensures var r := UpdateState(s, i, removing);
      r.primary.None? && r.shown.None? && r.iconPending == NetworkOffline
  {
  }

  /** A leaving or terminal shown connection that is not primary hands the display back
      to the primary connection (possibly none); primary stays. */
  lemma TerminalShownFallsBack(s: State, i: nat, removing: bool)
    requires i < |s.rows|
    requires removing || Terminal(s.rows[i].state)
    requires s.primary != Some(s.rows[i].key) && s.shown == Some(s.rows[i].key)
    ensures var r := UpdateState(s, i, removing);
      r.primary == s.primary && r.shown == s.primary && r.iconPending == IconOf(s.rows, s.primary)
  {
  }

  /** A live row that is primary or activating takes the display. */
  lemma PrimaryOrActivatingIsShown(s: State, i: nat)
    requires i < |s.rows| && KeysDistinct(s.rows)
    requires !Terminal(s.rows[i].state)
    requires s.primary == Some(s.rows[i].key) || s.rows[i].state == Activating
    ensures var r := UpdateState(s, i, false);
      r.primary == s.primary && r.shown == Some(s.rows[i].key) && r.iconPending == s.rows[i].icon
  {
  }

  /** A live shown row that is neither primary nor activating hands the display back to
      the primary connection. */
  lemma OtherShownFallsBack(s: State, i: nat)
    requires i < |s.rows|
    requires !Terminal(s.rows[i].state) && s.rows[i].state != Activating
    requires s.primary != Some(s.rows[i].key) && s.shown == Some(s.rows[i].key)
    ensures var r := UpdateState(s, i, false);
      r.primary == s.primary && r.shown == s.primary && r.iconPending == IconOf(s.rows, s.primary)
  {
  }

  /** In every other case the update changes nothing at all, not even the timer. */
  lemma UnrelatedRowChangesNothing(s: State, i: nat, removing: bool)
    requires i < |s.rows|
    requires s.primary != Some(s.rows[i].key) && s.shown != Some(s.rows[i].key)
    requires removing || Terminal(s.rows[i].state) || s.rows[i].state != Activating
    ensures UpdateState(s, i, removing) == s
  {
  }

  // ---------------------------------------------------------------- invariant, row by row

  /** Running the handler for one row settles that row and keeps the rest consistent. */
  lemma UpdateStateSettlesRow(s: State, stale: set<Key>, i: nat)
    requires InvExcept(s, stale) && i < |s.rows|
    ensures InvExcept(UpdateState(s, i, false), stale - {s.rows[i].key})
  {
    FindKey(s.rows, i);
  }

  /** Running the handler over a range settles every row of the range. */
  lemma {:induction false} DispatchSettlesRange(s: State, stale: set<Key>, first: nat, last: int)
    requires InvExcept(s, stale) && last < |s.rows|
    ensures InvExcept(Dispatch(s, first, last, false), stale - RangeKeys(s.rows, first, last))
    decreases last - first + 1
  {
    if first > last {
      assert RangeKeys(s.rows, first, last) == {};
    } else {
      var t := UpdateState(s, first, false);
      UpdateStateSettlesRow(s, stale, first);
      DispatchSettlesRange(t, stale - {s.rows[first].key}, first + 1, last);
      assert RangeKeys(s.rows, first, last) == {s.rows[first].key} + RangeKeys(s.rows, first + 1, last);
    }
  }

  /** No reference points at any key of `gone`. */
  ghost predicate Avoids(s: State, gone: set<Key>)
  {
    (s.primary.Some? ==> s.primary.value !in gone) && (s.shown.Some? ==> s.shown.value !in gone)
  }

  /** The handler for a leaving row keeps the invariant and lets go of that row. */
  lemma UpdateStateReleasesRow(s: State, gone: set<Key>, i: nat)
    requires Inv(s) && Avoids(s, gone) && i < |s.rows|
    ensures var r := UpdateState(s, i, true); Inv(r) && Avoids(r, gone + {s.rows[i].key})
  {
    FindKey(s.rows, i);
  }

  /** The about-to-be-removed handler lets go of every row of the range. */
  lemma {:induction false} DispatchReleasesRange(s: State, gone: set<Key>, first: nat, last: int)
    requires Inv(s) && Avoids(s, gone) && last < |s.rows|
    ensures var r := Dispatch(s, first, last, true);
      Inv(r) && Avoids(r, gone + RangeKeys(s.rows, first, last))
    decreases last - first + 1
  {
    if first > last {
      assert RangeKeys(s.rows, first, last) == {};
    } else {
      var t := UpdateState(s, first, true);
      UpdateStateReleasesRow(s, gone, first);
      DispatchReleasesRange(t, gone + {s.rows[first].key}, first + 1, last);
      assert RangeKeys(s.rows, first, last) == {s.rows[first].key} + RangeKeys(s.rows, first + 1, last);
    }
  }

  // ---------------------------------------------------------------- row-set surgery

  /** Removing a range keeps the other rows, with distinct keys, and each key still
      resolves to the same row. */
  lemma RemovalKeepsRow(rows: seq<Row>, first: nat, last: nat, k: Key)
    requires KeysDistinct(rows) && first <= last < |rows|
    requires Present(rows, k) && k !in RangeKeys(rows, first, last)
    ensures var rest := rows[..first] + rows[last + 1..];
      Present(rest, k) && rest[Find(rest, k).value] == rows[Find(rows, k).value]
      && IconOf(rest, Some(k)) == IconOf(rows, Some(k))
  {
    var rest := rows[..first] + rows[last + 1..];
    RemovalKeepsKeys(rows, first, last);
    var j := Find(rows, k).value;
    var j' := if j < first then j else j - (last + 1 - first);
    assert rest[j'] == rows[j];
    FindKey(rest, j');
  }

  lemma RemovalKeepsKeys(rows: seq<Row>, first: nat, last: nat)
    requires KeysDistinct(rows) && first <= last < |rows|
    ensures KeysDistinct(rows[..first] + rows[last + 1..])
  {
    var rest := rows[..first] + rows[last + 1..];
    forall p, q | 0 <= p < |rest| && 0 <= q < |rest| && p != q
      ensures rest[p].key != rest[q].key
    {
      var p' := if p < first then p else p + (last + 1 - first);
      var q' := if q < first then q else q + (last + 1 - first);
      assert rest[p] == rows[p'] && rest[q] == rows[q'];
    }
  }

  /** Inserting rows with added keys keeps keys distinct, and each old key still resolves
      to the same row. */
  lemma InsertionKeepsRow(rows: seq<Row>, at: nat, added: seq<Row>, bound: nat, k: Key)
    requires KeysDistinct(rows) && KeysBelow(rows, bound) && at <= |rows|
    requires KeysDistinct(added) && forall j :: 0 <= j < |added| ==> added[j].key >= bound
    requires Present(rows, k)
    ensures var all := rows[..at] + added + rows[at..];
      Present(all, k) && all[Find(all, k).value] == rows[Find(rows, k).value]
      && IconOf(all, Some(k)) == IconOf(rows, Some(k))
  {
    var all := rows[..at] + added + rows[at..];
    InsertionKeepsKeys(rows, at, added, bound);
    var j := Find(rows, k).value;
    var j' := if j < at then j else j + |added|;
    assert all[j'] == rows[j];
    FindKey(all, j');
  }

  lemma InsertionKeepsKeys(rows: seq<Row>, at: nat, added: seq<Row>, bound: nat)
    requires KeysDistinct(rows) && KeysBelow(rows, bound) && at <= |rows|
    requires KeysDistinct(added) && forall j :: 0 <= j < |added| ==> added[j].key >= bound
    ensures KeysDistinct(rows[..at] + added + rows[at..])
  {
    var all := rows[..at] + added + rows[at..];
    var n := |added|;
    forall p, q | 0 <= p < |all| && 0 <= q < |all| && p != q
      ensures all[p].key != all[q].key
    {
      if p < at {
        assert all[p] == rows[p];
      } else if p < at + n {
        assert all[p] == added[p - at];
      } else {
        assert all[p] == rows[p - n];
      }
      if q < at {
        assert all[q] == rows[q];
      } else if q < at + n {
        assert all[q] == added[q - at];
      } else {
        assert all[q] == rows[q - n];
      }
    }
  }

  /** Rows with the same keys position by position resolve every key alike. */
  lemma SameKeysSameFind(a: seq<Row>, b: seq<Row>, k: Key)
    requires |a| == |b| && forall j :: 0 <= j < |a| ==> a[j].key == b[j].key
    ensures Find(a, k) == Find(b, k)
  {
  }

  // ---------------------------------------------------------------- invariant, per event

  lemma InitEstablishesInv(conns: seq<Connection>)
    ensures Inv(Init(conns))
  {
    var r := Init(conns);
    assert KeysDistinct(r.rows);
  }

  /** The removal handler alone already releases every removed row: the invalidation of
      references to vanished rows changes nothing, and the tray stays consistent. */
  lemma RowsRemovedKeepsInv(s: State, first: nat, last: nat)
    requires Inv(s) && first <= last < |s.rows|
    ensures var d := Dispatch(s, first, last, true); var r := RowsRemoved(s, first, last);
      Inv(r) && r.primary == d.primary && r.shown == d.shown
  {
    var d := Dispatch(s, first, last, true);
    DispatchReleasesRange(s, {}, first, last);
    var rest := d.rows[..first] + d.rows[last + 1..];
    RemovalKeepsKeys(d.rows, first, last);
    if d.primary.Some? {
      RemovalKeepsRow(d.rows, first, last, d.primary.value);
    }
    if d.shown.Some? {
      RemovalKeepsRow(d.rows, first, last, d.shown.value);
    }
    var r := RowsRemoved(s, first, last);
    assert KeysBelow(r.rows, r.nextKey) by {
      forall p | 0 <= p < |rest| ensures rest[p].key < r.nextKey {
        var p' := if p < first then p else p + (last + 1 - first);
        assert rest[p] == d.rows[p'];
      }
    }
  }

  /** The tray with rows `conns` spliced in at `at` and before their handler runs. */
  function Spliced(s: State, at: nat, conns: seq<Connection>): State
    requires at <= |s.rows|
  {
    s.(rows := s.rows[..at] + NewRows(conns, s.nextKey) + s.rows[at..], nextKey := s.nextKey + |conns|)
  }

  /** Fresh rows are referenced by nothing, so the spliced tray is consistent already. */
  lemma SplicedKeepsInv(s: State, at: nat, conns: seq<Connection>)
    requires Inv(s) && at <= |s.rows|
    ensures Inv(Spliced(s, at, conns))
  {
    var added := NewRows(conns, s.nextKey);
    var s1 := Spliced(s, at, conns);
    var rows := s1.rows;
    InsertionKeepsKeys(s.rows, at, added, s.nextKey);
    if s.primary.Some? {
      InsertionKeepsRow(s.rows, at, added, s.nextKey, s.primary.value);
    }
    if s.shown.Some? {
      InsertionKeepsRow(s.rows, at, added, s.nextKey, s.shown.value);
    }
    assert KeysBelow(rows, s1.nextKey) by {
      forall p | 0 <= p < |rows| ensures rows[p].key < s1.nextKey {
        if p < at {
          assert rows[p] == s.rows[p];
        } else if p < at + |added| {
          assert rows[p] == added[p - at];
        } else {
          assert rows[p] == s.rows[p - |added|];
        }
      }
    }
  }

  /** The row-inserted handler keeps the tray consistent. It never adopts a new row as
      primary, even one carrying the service's primary uuid. */
  lemma RowsInsertedKeepsInv(s: State, at: nat, conns: seq<Connection>)
    requires Inv(s) && at <= |s.rows|
    ensures var r := RowsInserted(s, at, conns); Inv(r) && r.primary == s.primary
  {
    InsertedIsSplicedThenDispatched(s, at, conns);
    SplicedKeepsInv(s, at, conns);
    SplicedSettles(s, at, conns);
    SplicedKeepsPrimary(s, at, conns);
  }

  lemma InsertedIsSplicedThenDispatched(s: State, at: nat, conns: seq<Connection>)
    requires at <= |s.rows|
    ensures RowsInserted(s, at, conns) == Dispatch(Spliced(s, at, conns), at, at + |conns| - 1, false)
  {
  }

  lemma SplicedSettles(s: State, at: nat, conns: seq<Connection>)
    requires at <= |s.rows| && Inv(Spliced(s, at, conns))
    ensures Inv(Dispatch(Spliced(s, at, conns), at, at + |conns| - 1, false))
  {
    var s1 := Spliced(s, at, conns);
    DispatchSettlesRange(s1, {}, at, at + |conns| - 1);
    assert {} - RangeKeys(s1.rows, at, at + |conns| - 1) == {};
  }

  lemma SplicedKeepsPrimary(s: State, at: nat, conns: seq<Connection>)
    requires Inv(s) && at <= |s.rows|
    ensures Dispatch(Spliced(s, at, conns), at, at + |conns| - 1, false).primary == s.primary
  {
    var s1 := Spliced(s, at, conns);
    if s.primary.Some? {
      var p := Find(s.rows, s.primary.value).value;
      assert s.rows[p].key < s.nextKey;
    }
    var added := NewRows(conns, s.nextKey);
    assert forall j :: at <= j <= at + |conns| - 1 ==> s1.rows[j] == added[j - at];
    DispatchKeepsUnmatchedPrimary(s1, at, at + |conns| - 1, s.nextKey);
  }

  /** A range of rows none of which is the primary one leaves primary in place. */
  lemma {:induction false} DispatchKeepsUnmatchedPrimary(s: State, first: nat, last: int, bound: nat)
    requires last < |s.rows|
    requires forall j :: first <= j <= last ==> s.rows[j].key >= bound
    requires s.primary.Some? ==> s.primary.value < bound
    ensures Dispatch(s, first, last, false).primary == s.primary
    decreases last - first + 1
  {
    if first <= last {
      DispatchKeepsUnmatchedPrimary(UpdateState(s, first, false), first + 1, last, bound);
    }
  }

  /** The data-changed handler settles every changed row and keeps the tray consistent. */
  lemma RowsChangedKeepsInv(s: State, first: nat, changes: seq<Status>)
    requires Inv(s) && first + |changes| <= |s.rows|
    ensures Inv(RowsChanged(s, first, changes))
  {
    var s1 := s.(rows := ApplyStatuses(s.rows, first, changes));
    var last := first + |changes| - 1;
    ChangedRowsAreStale(s, first, changes);
    DispatchSettlesRange(s1, RangeKeys(s1.rows, first, last), first, last);
    assert RangeKeys(s1.rows, first, last) - RangeKeys(s1.rows, first, last) == {};
  }

  /** Right after new statuses are stored, only references to the changed rows may be
      out of step. */
  lemma ChangedRowsAreStale(s: State, first: nat, changes: seq<Status>)
    requires Inv(s) && first + |changes| <= |s.rows|
    ensures var rows := ApplyStatuses(s.rows, first, changes);
      InvExcept(s.(rows := rows), RangeKeys(rows, first, first + |changes| - 1))
  {
    var rows := ApplyStatuses(s.rows, first, changes);
    var stale := RangeKeys(rows, first, first + |changes| - 1);
    assert KeysDistinct(rows);
    if s.primary.Some? {
      SameKeysSameFind(rows, s.rows, s.primary.value);
      var j := Find(s.rows, s.primary.value).value;
      assert !(first <= j < first + |changes|) ==> rows[j] == s.rows[j];
      assert first <= j < first + |changes| ==> s.primary.value in stale;
    }
    if s.shown.Some? {
      SameKeysSameFind(rows, s.rows, s.shown.value);
      var j := Find(s.rows, s.shown.value).value;
      assert !(first <= j < first + |changes|) ==> rows[j] == s.rows[j];
      assert first <= j < first + |changes| ==> s.shown.value in stale;
    }
  }

  /** A primary-connection update keeps the tray consistent. */
  lemma PrimaryUpdateKeepsInv(s: State, service: Option<Uuid>)
    requires Inv(s)
    requires service.Some? ==> |Matches(s.rows, service.value)| <= 1
    ensures Inv(PrimaryConnectionUpdate(s, service))
  {
    if service.Some? {
      var l := Matches(s.rows, service.value);
      if |l| > 0 {
        var i := l[0];
        assert i in l;
        FindKey(s.rows, i);
      }
    }
  }

  lemma StepKeepsInv(s: State, e: Event)
    requires Inv(s) && Step(s, e).Some?
    ensures Inv(Step(s, e).value)
  {
    match e
    case Inserted(at, conns) => RowsInsertedKeepsInv(s, at, conns);
    case Removed(first, last) => RowsRemovedKeepsInv(s, first, last);
    case Changed(first, changes) => RowsChangedKeepsInv(s, first, changes);
    case PrimaryChanged(service) => PrimaryUpdateKeepsInv(s, service);
    case IconTimer =>
    case ThemeChanged =>
    case FlagsChanged =>
    case StateTimer(_, _, _) =>
  }

  /** Every notification sequence the tray accepts keeps it consistent. */
  lemma {:induction false} RunKeepsInv(s: State, events: seq<Event>)
    requires Inv(s) && Run(s, events).Some?
    ensures Inv(Run(s, events).value)
    decreases |events|
  {
    if |events| > 0 {
      StepKeepsInv(s, events[0]);
      RunKeepsInv(Step(s, events[0]).value, events[1..]);
    }
  }

  /**
   * Whatever rows are inserted, removed or changed and whatever the service announces,
   * the shown reference is none or a row that is present, and it is the primary
   * connection or an activating one; its class is what is (about to be) displayed.
   */
  lemma ShownNeverDangles(conns: seq<Connection>, events: seq<Event>)
    requires Run(Init(conns), events).Some?
    ensures var t := Run(Init(conns), events).value;
      && (t.shown.Some? ==> Present(t.rows, t.shown.value))
      && (t.primary.Some? ==> Present(t.rows, t.primary.value))
      && (t.shown.Some? ==> t.shown == t.primary || t.rows[Find(t.rows, t.shown.value).value].state == Activating)
      && t.iconPending == IconOf(t.rows, t.shown)
  {
    InitEstablishesInv(conns);
    RunKeepsInv(Init(conns), events);
  }

  // ---------------------------------------------------------------- icon debouncing

  /** A flush leaves nothing to do: flushing again changes nothing. */
  lemma UpdateIconIdempotent(s: State)
    ensures UpdateIcon(UpdateIcon(s)) == UpdateIcon(s)
  {
  }

  /** Once the timer has fired, a second firing without a new request changes nothing. */
  lemma IconTimeoutIdempotent(s: State)
    ensures IconTimeout(IconTimeout(s)) == IconTimeout(s)
  {
  }

  /** The shown references requested, one after another, within one pass of the event loop. */
  function ShowAll(s: State, refs: seq<Option<Key>>): (r: State)
    ensures r.rows == s.rows && r.iconCurrent == s.iconCurrent && r.repaints == s.repaints
    ensures |refs| > 0 ==>
      r.iconTimerArmed && r.shown == refs[|refs| - 1] && r.iconPending == IconOf(s.rows, refs[|refs| - 1])
    ensures |refs| == 0 ==> r == s
    decreases |refs|
  {
    if |refs| == 0 then s else ShowAll(SetShown(s, refs[0]), refs[1..])
  }

  /**
   * Any number of display requests within one pass cost at most one repaint, and the
   * class on screen afterwards is the one of the last request.
   */
  lemma DebounceLaw(s: State, refs: seq<Option<Key>>)
    requires |refs| > 0
    ensures var t := IconTimeout(ShowAll(s, refs)); var last := IconOf(s.rows, refs[|refs| - 1]);
      && t.iconCurrent == last
      && t.repaints == (if s.iconCurrent == last then s.repaints else s.repaints + 1)
      && !t.iconTimerArmed
  {
  }

  /** A theme change repaints the same class and touches no reference. */
  lemma ThemeChangeKeepsLogicalState(s: State)
    requires Inv(s)
    ensures var r := ThemeChange(s);
      Inv(r) && r == s.(repaints := s.repaints + 1)
  {
  }

  // ---------------------------------------------------------------- single-row events

  /** A one-row data change is the status update followed by one reconciliation. */
  lemma SingleChange(s: State, i: nat, c: Status)
    requires i < |s.rows|
    ensures RowsChanged(s, i, [c]) == UpdateState(s.(rows := ApplyStatuses(s.rows, i, [c])), i, false)
  {
    var s1 := s.(rows := ApplyStatuses(s.rows, i, [c]));
    var t := UpdateState(s1, i, false);
    assert Dispatch(t, i + 1, i, false) == t;
    assert Dispatch(s1, i, i, false) == t;
  }

  /** A one-row removal is one reconciliation followed by dropping the row. */
  lemma SingleRemoval(s: State, i: nat)
    requires i < |s.rows|
    ensures var d := UpdateState(s, i, true); var rows := s.rows[..i] + s.rows[i + 1..];
      RowsRemoved(s, i, i) == d.(rows := rows, primary := Revalidate(rows, d.primary), shown := Revalidate(rows, d.shown))
  {
    var d := UpdateState(s, i, true);
    assert Dispatch(d, i + 1, i, true) == d;
    assert Dispatch(s, i, i, true) == d;
  }

  /** Reconciling the same row twice is the same as reconciling it once. */
  lemma UpdateStateIdempotent(s: State, i: nat, removing: bool)
    requires i < |s.rows|
    ensures UpdateState(UpdateState(s, i, removing), i, removing) == UpdateState(s, i, removing)
  {
  }

  // ---------------------------------------------------------------- laws over events

  /**
   * While A is primary, a connection B that starts activating takes the display; once B
   * leaves the activating state without becoming primary, the display returns to A.
   */
  lemma PrecedenceLaw(s: State, a: nat, b: nat, icon: Icon, later: Status)
    requires Inv(s) && a < |s.rows| && b < |s.rows| && a != b
    requires s.primary == Some(s.rows[a].key)
    requires later.state != Activating
    ensures var t := RowsChanged(s, b, [Status(Activating, icon)]);
      && t.primary == s.primary && t.shown == Some(s.rows[b].key) && t.iconPending == icon
      && var u := RowsChanged(t, b, [later]);
         u.primary == s.primary && u.shown == s.primary && u.iconPending == IconOf(s.rows, s.primary)
  {
    FindKey(s.rows, a);
    var s1 := s.(rows := ApplyStatuses(s.rows, b, [Status(Activating, icon)]));
    SingleChange(s, b, Status(Activating, icon));
    assert s1.rows[b].key == s.rows[b].key && s1.rows[b].state == Activating;
    assert s1.rows[a] == s.rows[a];
    assert KeysDistinct(s1.rows);
    PrimaryOrActivatingIsShown(s1, b);
    var t := UpdateState(s1, b, false);
    var t1 := t.(rows := ApplyStatuses(t.rows, b, [later]));
    SingleChange(t, b, later);
    assert t1.rows[b].key == s.rows[b].key && t1.rows[b].state == later.state;
    assert t1.rows[a] == s.rows[a];
    assert KeysDistinct(t1.rows);
    FindKey(t1.rows, a);
  }

  /** Removing the shown connection when it is not primary hands the display to the
      primary connection, which stays, or to nothing. */
  lemma RemovalLaw(s: State, i: nat)
    requires Inv(s) && i < |s.rows|
    requires s.shown == Some(s.rows[i].key) && s.primary != s.shown
    ensures var r := RowsRemoved(s, i, i);
      r.primary == s.primary && r.shown == s.primary && r.iconPending == IconOf(r.rows, r.primary)
  {
    FindKey(s.rows, i);
    RowsRemovedKeepsInv(s, i, i);
  }

  /** Removing the primary connection leaves no primary, nothing shown, and the offline
      class on screen at the next flush. */
  lemma RemovePrimaryLaw(s: State, i: nat)
    requires Inv(s) && i < |s.rows|
    requires s.primary == Some(s.rows[i].key)
    ensures var r := RowsRemoved(s, i, i);
      r.primary.None? && r.shown.None? && IconTimeout(r).iconCurrent == NetworkOffline
  {
    SingleRemoval(s, i);
  }

  /** A row's data-changed notification delivered twice in a row: the second one leaves
      both references and the pending class as the first one left them. */
  lemma RepeatedChangeIsIdempotent(s: State, i: nat, c: Status)
    requires i < |s.rows|
    ensures var once := RowsChanged(s, i, [c]); var twice := RowsChanged(once, i, [c]);
      twice.primary == once.primary && twice.shown == once.shown
      && twice.iconPending == once.iconPending && twice.rows == once.rows
  {
    var once := RowsChanged(s, i, [c]);
    SingleChange(s, i, c);
    SingleChange(once, i, c);
    assert ApplyStatuses(once.rows, i, [c]) == once.rows;
    UpdateStateIdempotent(s.(rows := ApplyStatuses(s.rows, i, [c])), i, false);
  }

  /** Hence a repeated notification, once the first has been flushed, causes no repaint
      and no icon change. */
  lemma RepeatedChangeRepaintsNothing(s: State, i: nat, c: Status)
    requires Inv(s) && i < |s.rows|
    ensures var once := IconTimeout(RowsChanged(s, i, [c]));
      var twice := IconTimeout(RowsChanged(once, i, [c]));
      twice.iconCurrent == once.iconCurrent && twice.repaints == once.repaints
  {
    var s1 := s.(rows := ApplyStatuses(s.rows, i, [c]));
    var r1 := RowsChanged(s, i, [c]);
    SingleChange(s, i, c);
    RowsChangedKeepsInv(s, i, [c]);
    var once := IconTimeout(r1);
    SingleChange(once, i, c);
    assert ApplyStatuses(once.rows, i, [c]) == once.rows;
    UpdateStateIdempotent(s1, i, false);
    UpdateStateIgnoresDisplay(once, r1, i, false);
  }

  /** The reconciliation reads neither the class on screen nor the timer nor the repaint
      count, so it treats two trays that differ only there alike. */
  lemma UpdateStateIgnoresDisplay(x: State, y: State, i: nat, removing: bool)
    requires i < |x.rows|
    requires x == y.(iconCurrent := x.iconCurrent, iconTimerArmed := x.iconTimerArmed, repaints := x.repaints)
    ensures var rx := UpdateState(x, i, removing); var ry := UpdateState(y, i, removing);
      rx.primary == ry.primary && rx.shown == ry.shown && rx.iconPending == ry.iconPending
  {
  }

  /** A connection inserted while activating takes the display at once, before the
      service makes it primary; primary does not move. */
  lemma ActivatingInsertTakesDisplay(s: State, at: nat, c: Connection)
    requires Inv(s) && at <= |s.rows| && c.state == Activating
    ensures var r := RowsInserted(s, at, [c]);
      r.shown == Some(s.nextKey) && r.primary == s.primary && r.iconPending == c.icon
  {
    var s1 := Spliced(s, at, [c]);
    InsertedIsSplicedThenDispatched(s, at, [c]);
    SplicedKeepsInv(s, at, [c]);
    var t := UpdateState(s1, at, false);
    assert Dispatch(t, at + 1, at, false) == t;
    assert s1.rows[at] == NewRows([c], s.nextKey)[0];
    PrimaryOrActivatingIsShown(s1, at);
    RowsInsertedKeepsInv(s, at, [c]);
  }

  // ---------------------------------------------------------------- action flags

  /** The menu tells switch readings apart exactly as far as it shows them: networking
      and Wi-Fi are always visible as check marks, the hardware switch only through the
      Wi-Fi action's enabled flag, and only while networking is on. */
  lemma ActionFlagsDetermineSwitches(n1: bool, w1: bool, h1: bool, n2: bool, w2: bool, h2: bool)
    ensures (SetActionsStates(n1, w1, h1) == SetActionsStates(n2, w2, h2))
        <==> (n1 == n2 && w1 == w2 && (n1 ==> h1 == h2))
  {
  }

  /** Any burst of switch notifications ends in one flag update, computed from the
      switches at the moment the timer fires; a further firing changes nothing. */
  lemma ActionFlagsDebounced(s: State, n: nat, networking: bool, wireless: bool, hardware: bool)
    requires n > 0
    ensures var t := StateTimeout(NotifyFlags(s, n), networking, wireless, hardware);
      && t.actions == SetActionsStates(networking, wireless, hardware)
      && StateTimeout(t, !networking, !wireless, !hardware) == t
  {
  }

  /** `n` consecutive switch notifications. */
  function NotifyFlags(s: State, n: nat): (r: State)
    ensures n > 0 ==> r.stateTimerArmed
    ensures r.actions == s.actions
    decreases n
  {
    if n == 0 then s else NotifyFlags(NetworkFlagsChanged(s), n - 1)
  }
}
