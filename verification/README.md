# nm-tray: the tray's connection-state reconciliation, in Dafny

nm-tray is a system-tray front-end for NetworkManager. Its `Tray` keeps one icon in
the notification area that reflects the active connections. This project models the
core of `src/tray.cpp` that decides which single active connection's icon is displayed:

- **Rows.** The active-connection rows of the filtering proxy model are a sequence of
  `Row(key, uuid, state, icon)`.
- **References.** The *primary* and *shown* references are `Option<Key>`. A `Key` is a
  row identity handed out on insertion and never reused. It plays the part of a
  `QPersistentModelIndex`: it follows its row when other rows come and go, and it becomes
  invalid (`Revalidate`) once its row is removed. References hold a row identity rather
  than the uuid because two active connections can carry the same connection uuid. The
  primary lookup asserts uniqueness only for the uuid it looks up.
- **Reconciliation.** `UpdateState` applies the precedence policy to one row.
  `Dispatch` runs it over a row range in ascending order, as the row-inserted,
  rows-about-to-be-removed and data-changed handlers do. `RowsInserted`, `RowsRemoved`
  and `RowsChanged` combine the change to the rows with the handler: inserted rows get
  fresh keys; removed rows are handled while still present and then dropped.
  `PrimaryConnectionUpdate` resolves the service's primary uuid by exact match.
- **Icon.** `SetShown` computes the pending icon class (offline when nothing is shown)
  and starts the zero-delay icon timer. `IconTimeout` is that timer firing, and
  `UpdateIcon` copies pending into current only when they differ. `repaints` counts how
  often the tray image is set. `ThemeChange` repaints without changing the class.
- **Menu flags.** `SetActionsStates` derives the menu action flags from the service's
  three switches when the debounced state timer (`StateTimeout`) fires.
- **Events.** `Step` and `Run` feed a stream of notifications through all of the above.

`Tray.Inv` is the consistency these handlers maintain:
- keys are distinct;
- both references point at present rows;
- the primary connection is never terminal;
- the shown connection is the primary one or an activating one;
- the pending class is the shown row's class;
- with the icon timer idle, the pending class is on screen.

`TrayProofs` proves that every notification preserves `Inv`. It also proves:
- each branch of the policy;
- that a removal leaves no reference to a removed row even before Qt invalidates it;
- the precedence and removal laws;
- that the icon debounce costs at most one repaint per burst, and none when the class on screen is already the last one requested;
- that a repeated one-row data change leaves the rows, the references and the pending class unchanged and, once the icon timer has fired, causes no repaint.

Files: `wrappers.dfy` (Option), `connections.dfy` (rows, lookups), `actions.dfy`
(menu flags), `tray.dfy` (state and transitions, invariant), `tray_proofs.dfy`
(properties), `scenarios.dfy` (a concrete two-connection run in stages, and a repeated multi-row change).

## Model

| member | source | states |
|---|---|---|
| Tray.UpdateState | src/tray.cpp:80-106 | rows untouched; primary can only be cleared, never moved to another row; shown moves only to this row, to primary or to none; it moves to this row only when the row is live; a leaving or terminal row is referenced by neither primary nor shown afterwards; any change recomputes the pending class for the new shown row and starts the icon timer |
| TrayProofs.TerminalPrimaryClearsBoth | src/tray.cpp:86-91 | a removed or Deactivated/Deactivating row that is primary leaves primary and shown none and the pending class offline |
| TrayProofs.TerminalShownFallsBack | src/tray.cpp:92-95 | such a row that is shown but not primary hands shown to the current primary (possibly none); primary unchanged |
| TrayProofs.PrimaryOrActivatingIsShown | src/tray.cpp:96-100 | a live row that is primary or Activating becomes shown, with its icon class pending; primary unchanged |
| TrayProofs.OtherShownFallsBack | src/tray.cpp:101-104 | a live row that is shown but neither primary nor Activating hands shown to primary |
| TrayProofs.UnrelatedRowChangesNothing | src/tray.cpp:86-105 | in every remaining case the whole state, pending class and timer included, is unchanged |
| TrayProofs.UpdateStateIdempotent | src/tray.cpp:80-106 | reconciling the same row twice equals reconciling it once |
| TrayProofs.UpdateStateSettlesRow | src/tray.cpp:96-105 | on a live row the update re-establishes the invariant for that row and keeps it for all others |
| TrayProofs.UpdateStateReleasesRow | src/tray.cpp:86-95 | on a leaving row the update keeps the invariant and leaves no reference to the row, nor to any row already released |
| Tray.Dispatch | src/tray.cpp:230-244 | running the handler over rows first..last in ascending order leaves the rows unchanged and can only clear primary; after any change the pending class is the shown row's class |
| TrayProofs.DispatchSettlesRange | src/tray.cpp:240-244 | after the handler has run over a range of changed rows, the invariant holds again for every row of the range |
| TrayProofs.DispatchReleasesRange | src/tray.cpp:235-239 | after the about-to-be-removed handler, neither primary nor shown refers to any row of the range |
| Tray.RowsInserted | src/tray.cpp:230-234 | rows inserted at the position with fresh keys and their attributes, other rows kept in order; primary can only be cleared; the icon on screen is untouched until the timer fires |
| TrayProofs.RowsInsertedKeepsInv | src/tray.cpp:230-234 | insertion keeps the invariant and never changes primary: a row carrying the service's primary uuid is not adopted on insertion |
| TrayProofs.ActivatingInsertTakesDisplay | src/tray.cpp:98-100 | a row inserted in state Activating is shown at once with its class pending, primary unchanged |
| Tray.RowsRemoved | src/tray.cpp:235-239 | the range is dropped from the rows; references that survive point at present rows; primary can only be cleared |
| TrayProofs.RowsRemovedKeepsInv | src/tray.cpp:235-239 | removal keeps the invariant; the references the handler leaves are already valid, so invalidating references to removed rows changes nothing |
| Tray.Revalidate | src/tray.cpp:65-66 | a reference to a row no longer present becomes none; a valid one is kept |
| TrayProofs.RemovalLaw | src/tray.cpp:92-95 | removing the shown non-primary connection hands shown to the primary connection, which stays, with its class pending |
| TrayProofs.RemovePrimaryLaw | src/tray.cpp:88-91 | removing the primary connection leaves primary and shown none and the offline class on screen after the flush |
| Tray.RowsChanged | src/tray.cpp:240-244 | the changed rows take the new state and icon with key and uuid kept, other rows untouched; primary can only be cleared |
| TrayProofs.RowsChangedKeepsInv | src/tray.cpp:240-244 | a data change of any range keeps the invariant |
| TrayProofs.PrecedenceLaw | src/tray.cpp:96-104 | while A is primary, B changing to Activating takes the display; B then leaving Activating without becoming primary returns the display to A |
| TrayProofs.RepeatedChangeIsIdempotent | src/tray.cpp:240-244 | delivering the same one-row data change twice leaves rows, primary, shown and the pending class as the first delivery left them |
| TrayProofs.RepeatedChangeRepaintsNothing | src/tray.cpp:139-146 | after the first delivery has been flushed, the repeated one causes no repaint and no icon change |
| Tray.PrimaryConnectionUpdate | src/tray.cpp:108-128 | no valid primary: primary and shown none, offline pending; uuid not in the rows: the whole state unchanged; uuid found: primary becomes that row exactly when it is not terminal, and shown equals primary |
| TrayProofs.PrimaryUpdateKeepsInv | src/tray.cpp:108-128 | a primary-connection update keeps the invariant |
| Connections.Matches | src/tray.cpp:120-125 | the exact-match lookup yields exactly the positions whose uuid equals the given one, in ascending order |
| Connections.IconOf | src/tray.cpp:133-134 | a valid reference stands for its row's icon class, an invalid or absent one for the offline class |
| Tray.RefreshIcon | src/tray.cpp:148-153 | the tray image is set once more from the current class; the references, the classes, the timers and the flags are untouched |
| Tray.SetShown | src/tray.cpp:130-137 | shown becomes the given reference, the pending class is its row's class or offline, and the icon timer is started; nothing else changes |
| Tray.UpdateIcon | src/tray.cpp:139-146 | current takes the pending class; the tray repaints only when they differed |
| TrayProofs.UpdateIconIdempotent | src/tray.cpp:139-146 | a second flush changes nothing |
| Tray.IconTimeout | src/tray.cpp:182-185 | the zero-delay timer fires only when started, puts the pending class on screen with at most one repaint and leaves the references alone |
| TrayProofs.IconTimeoutIdempotent | src/tray.cpp:182-185 | the timer firing again with no new request changes nothing |
| TrayProofs.DebounceLaw | src/tray.cpp:130-146 | any number of display requests in one pass end in the last request's class on screen at the cost of at most one repaint |
| Tray.ThemeChange | src/tray.cpp:254-260 | a theme change repaints while class, pending class and references stay as they are |
| TrayProofs.ThemeChangeKeepsLogicalState | src/tray.cpp:148-153 | a theme change keeps the invariant and changes only the repaint count |
| Tray.Init | src/tray.cpp:178-185 | at construction nothing is primary or shown, the out-of-range class is painted at once and the offline class is pending |
| TrayProofs.InitEstablishesInv | src/tray.cpp:178-180 | the constructed tray satisfies the invariant |
| Actions.SetActionsStates | src/tray.cpp:284-293 | the networking check mark follows networking; the Wi-Fi check mark follows wireless; Wi-Fi is enabled iff networking and wireless hardware are on; connection information is enabled iff networking is on |
| TrayProofs.ActionFlagsDetermineSwitches | src/tray.cpp:286-292 | two switch readings give the same flags exactly when networking and Wi-Fi agree and, with networking on, the hardware switch agrees too: with networking off the hardware switch is invisible in the menu |
| Actions.InitialActions | src/tray.cpp:187-201 | the actions start enabled and unchecked, as Qt creates them; the constructor does not derive them from the switches |
| Tray.NetworkFlagsChanged | src/tray.cpp:226-228 | a switch notification only starts the state timer |
| Tray.StateTimeout | src/tray.cpp:173-176 | the state timer fires only when started and then sets the flags from the switches as they are at that moment |
| TrayProofs.ActionFlagsDebounced | src/tray.cpp:173-176 | any burst of switch notifications results in one flag update from the switches at firing time; a further firing changes nothing |
| Tray.Step | src/tray.cpp:226-244 | a notification is refused exactly when its row range lies outside the rows or when more than one row carries the announced primary uuid |
| TrayProofs.RunKeepsInv | src/tray.cpp:226-244 | every notification sequence the tray accepts keeps the invariant |
| TrayProofs.ShownNeverDangles | src/tray.cpp:226-244 | from construction on, whatever the notifications, shown and primary are none or present rows, shown is primary or activating, and the pending class is the shown row's |
| TrayScenarios.StartsOffline | src/tray.cpp:108-116 | with no connections, a primary announcement of "none" leaves primary and shown empty, and the timer paints the offline class |
| TrayScenarios.FirstConnectionBecomesPrimary | src/tray.cpp:92-128 | an activating U1 is shown on insertion; when it activates before being announced as primary, the display falls back to none with the offline class pending (and painted if the timer fires then); the announcement shows U1 again and the timer puts its new class on screen |
| TrayScenarios.SecondConnectionPreemptsThenHandsBack | src/tray.cpp:92-100 | an activating U2 pre-empts the primary U1 on the display; when U2 deactivates the display returns to U1 |
| TrayScenarios.RemovingPrimaryGoesOffline | src/tray.cpp:86-91 | removing the primary's row clears primary and shown, and the timer paints the offline class |
| TrayScenarios.RepeatedRangeChangeCanDiffer | src/tray.cpp:86-100 | a two-row data change (U1 starts activating while the primary U2 deactivates) leaves the tray offline on first delivery but shows U1 when delivered again |

## Left out

- `src/windowmenu.cpp` is not part of this model. It builds widgets and walks Qt proxy models in `onActivated`, which depends on Qt internals.
- The widgets are not modelled: the tray icon, the context menu, the About and Quit message boxes, the connection-information and debug dialogs with `openCloseDialog`, the popup in `Tray::onActivated`, and the deferred `show()` of the tray icon.
- `icons::getIcon` theme resolution is a foreign call. Icon classes are opaque (`Themed(code)`), and a repaint is only counted.
- Timer intervals (0 ms and 200 ms) and real scheduling are not modelled. Each timer is a started flag plus an explicit firing step.
- NetworkManager calls are inputs: `primaryConnection()` becomes the `service` argument of `PrimaryConnectionUpdate`, and the `is…Enabled()` queries become the arguments of `StateTimeout`.
- `setNetworkingEnabled` and `setWirelessEnabled`, triggered from the menu, are fire-and-forget and not modelled. Their effect comes back as switch and row notifications.
- Tray.StateTimeout: `setActionsStates` queries `isNetworkingEnabled()` twice. The model reads it once, so it assumes the switch does not change between the two calls.
- Actions.InitialActions: the "Enable Networking" action's enabled flag and the "Debug information" action never change, so they are not tracked. The constructor does not derive the flags itself. A switch notification only starts the state timer, so the flags keep their defaults until that timer first fires. The "Enable Networking" and "Enable Wi-fi" actions are checkable: triggering one from the menu toggles its check mark at once, before any switch changes. Menu triggers are not modelled, so the model's check marks follow the switches only.
- Tray.RowsChanged: `QItemSelection::indexes` spans every column and filters out items that are not selectable and enabled. The model has one column and treats every row as selectable.
- Tray.RowsChanged: a data change alters only state and icon class; an active connection's uuid is fixed for its lifetime.
- TrayProofs.RepeatedChangeIsIdempotent: proved for one-row notifications only. A repeated multi-row notification is not idempotent in general; `TrayScenarios.RepeatedRangeChangeCanDiffer` gives an instance.
- Tray.Step: a notification whose row range lies outside the rows is refused. Qt never emits one.
- Tray.Step: a uuid matched by more than one row trips the source's debug assertion. The model refuses it instead of modelling a release build taking the first match.
- Row moves and layout changes of the proxy model are not modelled. The source does not connect to them, and persistent indices survive them.
- The event filter's `Q_ASSERT` on the watched object is not modelled.

## Behaviour worth knowing

- **Primary uuid not yet in the rows.** When the announced primary uuid matches no row, nothing changes, and it is not looked up again when its row is inserted later: the row-inserted handler only reconciles the new rows. `TrayProofs.RowsInsertedKeepsInv` proves that an insertion leaves primary unchanged. The next primary announcement is what picks the row up.
- **Primary update on a terminal row.** If the row that matches the announced uuid is already Deactivating or Deactivated, the update first sets primary to it. `UpdateState` then clears primary and shown at once.
- **Offline between activation and the primary announcement.** A connection that is shown while Activating, and not yet primary, loses the display when it becomes Activated: it is neither primary nor activating, so the display falls back to the primary, which is none, and the offline class is pending. If the icon timer fires before the primary announcement arrives, the offline icon is painted. The announcement then shows the connection again. `TrayScenarios.FirstConnectionBecomesPrimary` proves both states.
- **Repeated multi-row data changes.** A repeated one-row data change leaves the displayed class unchanged (`TrayProofs.RepeatedChangeIsIdempotent`). A repeated notification spanning several rows can change it. Suppose one row starts activating before the primary row in the same range, and the primary deactivates. The first delivery shows the activating row and then clears primary and shown on reaching the primary row. The second delivery finds no primary any more and shows the activating row. `TrayScenarios.RepeatedRangeChangeCanDiffer` proves this for a concrete state.
