/**
 * One concrete run through the life of two connections, from start-up to removal,
 * split into its stages: each stage starts where the previous one ended.
 */
module TrayScenarios {
  import opened Wrappers
  import opened Connections
  import opened Tray
  import opened TrayProofs
  import opened Actions

  /** No connections and no primary connection: the tray shows the offline class. */
  lemma StartsOffline()
    ensures var s := IconTimeout(PrimaryConnectionUpdate(Init([]), None));
      && Inv(s) && s.rows == [] && s.nextKey == 0
      && s.primary.None? && s.shown.None? && s.iconCurrent == NetworkOffline
  {
    InitEstablishesInv([]);
    PrimaryUpdateKeepsInv(Init([]), None);
  }

  /** U1 appears activating and is shown at once. When it activates before the service
      names it primary, it is neither primary nor activating, so the display falls back to
      the (absent) primary: nothing is shown and the offline class is pending, and painted
      if the icon timer fires now. The announcement then shows U1 again and its new class
      reaches the screen. */
  lemma FirstConnectionBecomesPrimary(s: State)
    requires Inv(s) && s.rows == [] && s.nextKey == 0 && s.primary.None?
    ensures var s2 := RowsInserted(s, 0, [Connection("u1", Activating, Themed(1))]);
      && s2.shown == Some(0) && s2.primary.None?
      && var s3 := RowsChanged(s2, 0, [Status(Activated, Themed(2))]);
         && s3.shown.None? && s3.primary.None? && s3.iconPending == NetworkOffline
         && s3.iconTimerArmed && IconTimeout(s3).iconCurrent == NetworkOffline
         && |Matches(s3.rows, "u1")| <= 1
         && var s4 := PrimaryConnectionUpdate(s3, Some("u1"));
            && Inv(s4) && s4.rows == [Row(0, "u1", Activated, Themed(2))] && s4.nextKey == 1
            && s4.primary == Some(0) && s4.shown == Some(0) && s4.iconPending == Themed(2)
            && IconTimeout(s4).iconCurrent == Themed(2)
  {
    var c1 := Connection("u1", Activating, Themed(1));
    var s2 := RowsInserted(s, 0, [c1]);
    ActivatingInsertTakesDisplay(s, 0, c1);
    RowsInsertedKeepsInv(s, 0, [c1]);
    var s3 := RowsChanged(s2, 0, [Status(Activated, Themed(2))]);
    RowsChangedKeepsInv(s2, 0, [Status(Activated, Themed(2))]);
    assert s3.rows == [Row(0, "u1", Activated, Themed(2))];
    PrimaryUpdateKeepsInv(s3, Some("u1"));
  }

  /** While U1 is primary, U2 appears activating and pre-empts the display; when U2
      deactivates, the display returns to U1. */
  lemma SecondConnectionPreemptsThenHandsBack(s: State)
    requires Inv(s) && s.rows == [Row(0, "u1", Activated, Themed(2))] && s.nextKey == 1
    requires s.primary == Some(0)
    ensures var s5 := RowsInserted(s, 1, [Connection("u2", Activating, Themed(3))]);
      && s5.shown == Some(1) && s5.primary == Some(0) && s5.iconPending == Themed(3)
      && var s6 := RowsChanged(s5, 1, [Status(Deactivated, Themed(4))]);
         && Inv(s6) && s6.shown == Some(0) && s6.primary == Some(0) && s6.iconPending == Themed(2)
  {
    var c2 := Connection("u2", Activating, Themed(3));
    var s5 := RowsInserted(s, 1, [c2]);
    ActivatingInsertTakesDisplay(s, 1, c2);
    RowsInsertedKeepsInv(s, 1, [c2]);
    var change := Status(Deactivated, Themed(4));
    var s5c := s5.(rows := ApplyStatuses(s5.rows, 1, [change]));
    SingleChange(s5, 1, change);
    assert s5c.rows == [Row(0, "u1", Activated, Themed(2)), Row(1, "u2", Deactivated, Themed(4))];
    TerminalShownFallsBack(s5c, 1, false);
    RowsChangedKeepsInv(s5, 1, [change]);
  }

  /** U1, still primary and shown, is removed: nothing is primary or shown, and the
      offline class goes on screen. */
  lemma RemovingPrimaryGoesOffline(s: State)
    requires Inv(s) && |s.rows| == 2 && s.rows[0].key == 0 && s.primary == Some(0)
    ensures var s7 := IconTimeout(RowsRemoved(s, 0, 0));
      && s7.rows == s.rows[1..] && s7.primary.None? && s7.shown.None?
      && s7.iconCurrent == NetworkOffline
  {
    RemovePrimaryLaw(s, 0);
  }

  /**
   * A two-row data change delivered twice can change the display the second time: U1
   * starts activating in the same notification in which the primary U2 deactivates.
   * The first delivery shows U1 and then, on reaching U2, clears primary and shown.
   * The second delivery finds no primary any more and shows U1.
   */
  lemma RepeatedRangeChangeCanDiffer()
    ensures var s := State([Row(0, "u1", Activated, Themed(1)), Row(1, "u2", Activated, Themed(2))],
                           2, Some(1), Some(1), Themed(2), Themed(2), false, 0, InitialActions(), false);
      var changes := [Status(Activating, Themed(3)), Status(Deactivated, Themed(4))];
      var once := RowsChanged(s, 0, changes);
      var twice := RowsChanged(once, 0, changes);
      && Inv(s)
      && once.shown.None? && once.primary.None? && once.iconPending == NetworkOffline
      && twice.shown == Some(0) && twice.iconPending == Themed(3)
  {
    var s := State([Row(0, "u1", Activated, Themed(1)), Row(1, "u2", Activated, Themed(2))],
                   2, Some(1), Some(1), Themed(2), Themed(2), false, 0, InitialActions(), false);
    var changes := [Status(Activating, Themed(3)), Status(Deactivated, Themed(4))];
    var rows := [Row(0, "u1", Activating, Themed(3)), Row(1, "u2", Deactivated, Themed(4))];
    assert ApplyStatuses(s.rows, 0, changes) == rows;
    assert ApplyStatuses(rows, 0, changes) == rows;
    var s1 := s.(rows := rows);
    var a := UpdateState(s1, 0, false);
    assert a.shown == Some(0);
    var b := UpdateState(a, 1, false);
    assert b.shown.None? && b.primary.None?;
    assert Dispatch(b, 2, 1, false) == b;
    assert Dispatch(a, 1, 1, false) == b;
    assert RowsChanged(s, 0, changes) == b;
    var c := UpdateState(b, 0, false);
    assert c.shown == Some(0);
    var d := UpdateState(c, 1, false);
    assert d == c;
    assert Dispatch(d, 2, 1, false) == d;
    assert Dispatch(c, 1, 1, false) == d;
    assert RowsChanged(b, 0, changes) == d;
    assert KeysDistinct(s.rows);
  }
}
