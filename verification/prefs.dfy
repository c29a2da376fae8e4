/** The `preferences` store of the tray app, held in memory: the saved resolution per display, the
    usage table, and the launch-at-login flag, with the operations that change them. */
module Preferences {
  import opened Wrappers
  import opened JsObjects
  import opened ResolutionUsage

  datatype Prefs = Prefs(savedResolutions: map<string, string>, resolutionUsageCount: UsageTable, launchAtLogin: bool)

  /** The store's defaults: nothing saved, no usage, not launched at login. */
  const Defaults := Prefs(map[], [], false)

  predicate WellFormedPrefs(p: Prefs) {
    WellFormedTable(p.resolutionUsageCount)
  }

  /** `store.get('savedResolutions.' + persistentId)` */
  function SavedResolution(p: Prefs, id: string): Option<string> {
    if id in p.savedResolutions then Some(p.savedResolutions[id]) else None
  }

  /** `savePreferredResolution(persistentId, resolution)`: whatever the menu passes is stored,
      including the placeholder `Unknown`. */
  function SavePreferredResolution(p: Prefs, id: string, resolution: string): (r: Prefs)
    ensures SavedResolution(r, id) == Some(resolution)
    ensures forall id' :: id' != id ==> SavedResolution(r, id') == SavedResolution(p, id')
    ensures r.resolutionUsageCount == p.resolutionUsageCount && r.launchAtLogin == p.launchAtLogin
  {
    p.(savedResolutions := p.savedResolutions[id := resolution])
  }

  /** What `restorePreferredResolution(persistentId)` asks to apply: the saved value when it is
      truthy, that is present and not the empty string. */
  function RestoreTarget(p: Prefs, id: string): (r: Option<string>)
    ensures r.Some? <==> SavedResolution(p, id).Some? && SavedResolution(p, id).value != ""
    ensures r.Some? ==> r == SavedResolution(p, id)
  {
    match SavedResolution(p, id)
    case Some(res) => if res != "" then Some(res) else None
    case None => None
  }

  /** `changeResolution(persistentId, resolution)`: the usage is tracked only when
      `setDisplayResolution` succeeded (`applied`); a failure changes nothing in the store. */
  function ChangeResolution(p: Prefs, id: string, resolution: string, applied: bool): Prefs {
    if applied then p.(resolutionUsageCount := TrackResolutionUsage(p.resolutionUsageCount, id, resolution)) else p
  }

  /** `restorePreferredResolution(persistentId)`: changes to the saved resolution when there is one. */
  function RestorePreferredResolution(p: Prefs, id: string, applied: bool): Prefs {
    match RestoreTarget(p, id)
    case Some(res) => ChangeResolution(p, id, res, applied)
    case None => p
  }

  /** `toggleLaunchAtLogin()`: the new flag, which is also what the login item is set to. */
  function ToggleLaunchAtLogin(p: Prefs): (r: (Prefs, bool))
    ensures r.0.launchAtLogin == r.1 == !p.launchAtLogin
    ensures r.0.savedResolutions == p.savedResolutions && r.0.resolutionUsageCount == p.resolutionUsageCount
  {
    var newValue := !p.launchAtLogin;
    (p.(launchAtLogin := newValue), newValue)
  }

  // ----- Properties -----

  /** Restoring right after saving asks for the saved resolution, unless it was the empty string. */
  lemma SaveThenRestore(p: Prefs, id: string, resolution: string)
    ensures RestoreTarget(SavePreferredResolution(p, id, resolution), id) == if resolution != "" then Some(resolution) else None
  {
  }

  /** A restore that applies something counts it once; one with nothing saved, or that fails,
      leaves the store as it was. */
  lemma RestoreCounts(p: Prefs, id: string, applied: bool)
    requires WellFormedPrefs(p)
    ensures var p' := RestorePreferredResolution(p, id, applied);
      && p'.savedResolutions == p.savedResolutions && p'.launchAtLogin == p.launchAtLogin
      && (RestoreTarget(p, id).None? || !applied ==> p' == p)
      && (RestoreTarget(p, id).Some? && applied ==>
            forall id', res' :: UsageCount(p'.resolutionUsageCount, id', res')
              == UsageCount(p.resolutionUsageCount, id', res') + (if id' == id && res' == RestoreTarget(p, id).value then 1 else 0))
  {
    if RestoreTarget(p, id).Some? && applied {
      TrackCounts(p.resolutionUsageCount, id, RestoreTarget(p, id).value);
    }
  }

  /** A change keeps the store well formed. */
  lemma ChangeKeepsWellFormed(p: Prefs, id: string, resolution: string, applied: bool)
    requires WellFormedPrefs(p)
    ensures WellFormedPrefs(ChangeResolution(p, id, resolution, applied))
  {
    if applied {
      TrackWellFormed(p.resolutionUsageCount, id, resolution);
    }
  }

  /** Toggling twice restores the flag and the login item setting. */
  lemma ToggleTwice(p: Prefs)
    ensures ToggleLaunchAtLogin(ToggleLaunchAtLogin(p).0).0 == p
    ensures ToggleLaunchAtLogin(ToggleLaunchAtLogin(p).0).1 == p.launchAtLogin
  {
  }

  /** A fresh store: nothing to restore, no most-used resolutions, not launched at login. */
  lemma DefaultsAreEmpty(id: string, limit: nat)
    ensures WellFormedPrefs(Defaults)
    ensures RestoreTarget(Defaults, id).None?
    ensures GetMostUsedResolutions(Defaults.resolutionUsageCount, id, limit) == []
    ensures !Defaults.launchAtLogin
  {
    MostUsedProperties(Defaults.resolutionUsageCount, id, limit);
  }
}
