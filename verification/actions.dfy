/**
 * The enabled/checked flags of the tray's context-menu actions, derived from the
 * network service's global switches whenever the debounced state timer fires.
 */
module Actions {

  /** Flags of the "Enable Networking", "Enable Wi-fi" and "Connection information" actions. */
  datatype ActionFlags = ActionFlags(
    networkingChecked: bool,
    wifiChecked: bool,
    wifiEnabled: bool,
    connInfoEnabled: bool)

  /** A freshly created menu action is enabled and, though checkable, unchecked. */
  function InitialActions(): (r: ActionFlags)
    ensures !r.networkingChecked && !r.wifiChecked
    ensures r.wifiEnabled && r.connInfoEnabled
  {
    ActionFlags(false, false, true, true)
  }

  /**
   * The action flags for the service's current switches: the Wi-Fi action can only be
   * used while networking is on and the radio hardware is on, and the information dialog
   * only while networking is on.
   */
  function SetActionsStates(networking: bool, wireless: bool, wirelessHardware: bool): (r: ActionFlags)
    ensures r.networkingChecked <==> networking
    ensures r.wifiChecked <==> wireless
    ensures r.wifiEnabled <==> networking && wirelessHardware
    ensures r.connInfoEnabled <==> networking
  {
    ActionFlags(
      networkingChecked := networking,
      wifiChecked := wireless,
      wifiEnabled := networking && wirelessHardware,
      connInfoEnabled := networking)
  }
}
