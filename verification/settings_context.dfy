/** Application settings as the renderer holds them: four sections whose
    fields may be absent (a saved JSON section can lack keys), the defaults,
    the deep merge of `updateSettings`, the shallow merge of `loadSettings`,
    and the ad-blocker toggle. Numbers are modelled as integers. */
module SettingsContext {
  import opened Wrappers

  datatype General = General(
    startupBehavior: Option<string>,
    startupPages: Option<seq<string>>,
    searchEngine: Option<string>,
    customSearchUrl: Option<string>)

  datatype Appearance = Appearance(
    animationsEnabled: Option<bool>,
    borderRadius: Option<int>,
    showBookmarksBar: Option<bool>)

  datatype Performance = Performance(
    maxCpuPercent: Option<int>,
    maxRamPercent: Option<int>,
    autoCloseInactiveTabs: Option<bool>,
    inactiveTabTimeout: Option<int>)

  datatype Privacy = Privacy(adBlockerEnabled: Option<bool>)

  /** The settings state: every section is present, each field may not be. */
  datatype Settings = Settings(
    general: General,
    appearance: Appearance,
    performance: Performance,
    privacy: Privacy)

  /** `Partial<Settings>`, and equally the settings object read back from
      storage: any section may be missing. */
  datatype SettingsPatch = SettingsPatch(
    general: Option<General>,
    appearance: Option<Appearance>,
    performance: Option<Performance>,
    privacy: Option<Privacy>)

  const DefaultSettings: Settings := Settings(
    General(Some("restore"), Some(["https://www.google.com"]), Some("google"), None),
    Appearance(Some(true), Some(8), Some(true)),
    Performance(Some(80), Some(70), Some(false), Some(30)),
    Privacy(Some(true)))

  /** The defaults fill every section completely, search with Google,
      restore the previous session on start and block ads; loading an empty
      saved object keeps them. */
  lemma DefaultsAreComplete()
    ensures CompleteGeneral(DefaultSettings.general) && DefaultSettings.general.customSearchUrl.None?
    ensures CompleteAppearance(DefaultSettings.appearance) && CompletePerformance(DefaultSettings.performance)
    ensures DefaultSettings.general.searchEngine == Some("google")
    ensures DefaultSettings.general.startupBehavior == Some("restore")
    ensures DefaultSettings.privacy.adBlockerEnabled == Some(true)
    ensures LoadSettings(DefaultSettings, Some(EmptyPatch)) == DefaultSettings
  {
  }

  const NoGeneral: General := General(None, None, None, None)
  const NoAppearance: Appearance := Appearance(None, None, None)
  const NoPerformance: Performance := Performance(None, None, None, None)
  const NoPrivacy: Privacy := Privacy(None)
  const EmptyPatch: SettingsPatch := SettingsPatch(None, None, None, None)

  // ----- one level of object spread per section -----

  function MergeGeneral(base: General, over: General): (r: General) {
    General(over.startupBehavior.OrElse(base.startupBehavior), over.startupPages.OrElse(base.startupPages),
            over.searchEngine.OrElse(base.searchEngine), over.customSearchUrl.OrElse(base.customSearchUrl))
  }

  function MergeAppearance(base: Appearance, over: Appearance): (r: Appearance) {
    Appearance(over.animationsEnabled.OrElse(base.animationsEnabled), over.borderRadius.OrElse(base.borderRadius),
               over.showBookmarksBar.OrElse(base.showBookmarksBar))
  }

  function MergePerformance(base: Performance, over: Performance): (r: Performance) {
    Performance(over.maxCpuPercent.OrElse(base.maxCpuPercent), over.maxRamPercent.OrElse(base.maxRamPercent),
                over.autoCloseInactiveTabs.OrElse(base.autoCloseInactiveTabs),
                over.inactiveTabTimeout.OrElse(base.inactiveTabTimeout))
  }

  function MergePrivacy(base: Privacy, over: Privacy): (r: Privacy) {
    Privacy(over.adBlockerEnabled.OrElse(base.adBlockerEnabled))
  }

  /** Field `r` after a spread: the override when present, else the base. */
  predicate Takes<T(==)>(r: Option<T>, base: Option<T>, over: Option<T>) {
    (over.Some? ==> r == over) && (over.None? ==> r == base)
  }

  predicate GeneralTakes(r: General, base: General, over: General) {
    && Takes(r.startupBehavior, base.startupBehavior, over.startupBehavior)
    && Takes(r.startupPages, base.startupPages, over.startupPages)
    && Takes(r.searchEngine, base.searchEngine, over.searchEngine)
    && Takes(r.customSearchUrl, base.customSearchUrl, over.customSearchUrl)
  }

  predicate AppearanceTakes(r: Appearance, base: Appearance, over: Appearance) {
    && Takes(r.animationsEnabled, base.animationsEnabled, over.animationsEnabled)
    && Takes(r.borderRadius, base.borderRadius, over.borderRadius)
    && Takes(r.showBookmarksBar, base.showBookmarksBar, over.showBookmarksBar)
  }

  predicate PerformanceTakes(r: Performance, base: Performance, over: Performance) {
    && Takes(r.maxCpuPercent, base.maxCpuPercent, over.maxCpuPercent)
    && Takes(r.maxRamPercent, base.maxRamPercent, over.maxRamPercent)
    && Takes(r.autoCloseInactiveTabs, base.autoCloseInactiveTabs, over.autoCloseInactiveTabs)
    && Takes(r.inactiveTabTimeout, base.inactiveTabTimeout, over.inactiveTabTimeout)
  }

  // ----- updateSettings -----

  /** `updateSettings(u)`: in each of the four sections, fields present in
      the update override and absent fields keep their current values; a
      section missing from the update is kept whole. */
  function UpdateSettings(s: Settings, u: SettingsPatch): (r: Settings)
    ensures GeneralTakes(r.general, s.general, u.general.GetOr(NoGeneral))
    ensures AppearanceTakes(r.appearance, s.appearance, u.appearance.GetOr(NoAppearance))
    ensures PerformanceTakes(r.performance, s.performance, u.performance.GetOr(NoPerformance))
    ensures Takes(r.privacy.adBlockerEnabled, s.privacy.adBlockerEnabled, u.privacy.GetOr(NoPrivacy).adBlockerEnabled)
    ensures u.general.None? ==> r.general == s.general
    ensures u.appearance.None? ==> r.appearance == s.appearance
    ensures u.performance.None? ==> r.performance == s.performance
    ensures u.privacy.None? ==> r.privacy == s.privacy
  {
    Settings(
      MergeGeneral(s.general, u.general.GetOr(NoGeneral)),
      MergeAppearance(s.appearance, u.appearance.GetOr(NoAppearance)),
      MergePerformance(s.performance, u.performance.GetOr(NoPerformance)),
      MergePrivacy(s.privacy, u.privacy.GetOr(NoPrivacy)))
  }

  /** An empty update yields settings equal to the current ones. */
  lemma UpdateEmpty(s: Settings)
    ensures UpdateSettings(s, EmptyPatch) == s
  {
  }

  /** Applying an update twice is the same as applying it once. */
  lemma UpdateIdempotent(s: Settings, u: SettingsPatch)
    ensures UpdateSettings(UpdateSettings(s, u), u) == UpdateSettings(s, u)
  {
  }

  /** Two updates in a row: the later update's present fields win. */
  function Then(a: SettingsPatch, b: SettingsPatch): (r: SettingsPatch) {
    SettingsPatch(
      if a.general.None? && b.general.None? then None
      else Some(MergeGeneral(a.general.GetOr(NoGeneral), b.general.GetOr(NoGeneral))),
      if a.appearance.None? && b.appearance.None? then None
      else Some(MergeAppearance(a.appearance.GetOr(NoAppearance), b.appearance.GetOr(NoAppearance))),
      if a.performance.None? && b.performance.None? then None
      else Some(MergePerformance(a.performance.GetOr(NoPerformance), b.performance.GetOr(NoPerformance))),
      if a.privacy.None? && b.privacy.None? then None
      else Some(MergePrivacy(a.privacy.GetOr(NoPrivacy), b.privacy.GetOr(NoPrivacy))))
  }

  /** Successive updates compose into the single update `Then(a, b)`. */
  lemma UpdateCompose(s: Settings, a: SettingsPatch, b: SettingsPatch)
    ensures UpdateSettings(UpdateSettings(s, a), b) == UpdateSettings(s, Then(a, b))
  {
  }

  // ----- loadSettings -----

  /** `loadSettings`: a missing or key-less saved object keeps the current
      settings; otherwise `{...defaultSettings, ...saved}` merges at the TOP
      level only, so a saved section replaces the default section wholesale
      and a section the save lacks falls back to its default. */
  function LoadSettings(current: Settings, saved: Option<SettingsPatch>): (r: Settings)
    ensures saved.None? || saved == Some(EmptyPatch) ==> r == current
    ensures saved.Some? && saved.value != EmptyPatch ==>
              && r.general == saved.value.general.GetOr(DefaultSettings.general)
              && r.appearance == saved.value.appearance.GetOr(DefaultSettings.appearance)
              && r.performance == saved.value.performance.GetOr(DefaultSettings.performance)
              && r.privacy == saved.value.privacy.GetOr(DefaultSettings.privacy)
  {
    match saved
    case None => current
    case Some(p) =>
      if p == EmptyPatch then current
      else Settings(
        p.general.GetOr(DefaultSettings.general),
        p.appearance.GetOr(DefaultSettings.appearance),
        p.performance.GetOr(DefaultSettings.performance),
        p.privacy.GetOr(DefaultSettings.privacy))
  }

  /** A section that carries every field the default carries. */
  predicate CompleteGeneral(g: General) {
    g.startupBehavior.Some? && g.startupPages.Some? && g.searchEngine.Some?
  }

  predicate CompleteAppearance(a: Appearance) {
    a.animationsEnabled.Some? && a.borderRadius.Some? && a.showBookmarksBar.Some?
  }

  predicate CompletePerformance(p: Performance) {
    p.maxCpuPercent.Some? && p.maxRamPercent.Some? && p.autoCloseInactiveTabs.Some? && p.inactiveTabTimeout.Some?
  }

  /** On mount the shallow load and the deep update agree exactly when the
      saved sections are complete. */
  lemma LoadMatchesUpdateOnComplete(p: SettingsPatch)
    requires p.general.Some? ==> CompleteGeneral(p.general.value)
    requires p.appearance.Some? ==> CompleteAppearance(p.appearance.value)
    requires p.performance.Some? ==> CompletePerformance(p.performance.value)
    requires p.privacy.Some? ==> p.privacy.value.adBlockerEnabled.Some?
    ensures LoadSettings(DefaultSettings, Some(p)) == UpdateSettings(DefaultSettings, p)
  {
  }

  /** A partial saved section drops the default fields it lacks on load,
      where the deep update would keep them. */
  lemma LoadDropsDefaultFields()
    ensures var saved := EmptyPatch.(general := Some(NoGeneral.(startupBehavior := Some("new-tab"))));
            && LoadSettings(DefaultSettings, Some(saved)).general.searchEngine == None
            && UpdateSettings(DefaultSettings, saved).general.searchEngine == Some("google")
  {
  }

  // ----- toggleAdblocker -----

  /** `toggleAdblocker(enabled)`: when the bridge call succeeds only
      `privacy.adBlockerEnabled` changes, to `enabled`; when it throws the
      settings are unchanged. */
  function ToggleAdblocker(s: Settings, enabled: bool, bridgeOk: bool): (r: Settings)
    ensures bridgeOk ==> r == s.(privacy := s.privacy.(adBlockerEnabled := Some(enabled)))
    ensures bridgeOk ==> r.privacy.adBlockerEnabled == Some(enabled)
    ensures !bridgeOk ==> r == s
  {
    if bridgeOk then UpdateSettings(s, EmptyPatch.(privacy := Some(s.privacy.(adBlockerEnabled := Some(enabled)))))
    else s
  }
}
