/** The settings store of `src/context/settings-context.tsx`: the built-in
    default time ranges, the initial settings, the load-and-merge run once on
    mount, `updateSettings` with its best-effort write, and
    `getInitialTimeRange`. The browser's `localStorage` is a map from key to
    stored value; `JSON.parse` either fails or yields the stored fields. */
module SettingsContext {
  import opened Wrappers

  /** An hour range. A part is absent when an edit created the entry from
      nothing and set only the other part. */
  datatype TimeRange = TimeRange(start: Option<int>, end: Option<int>)

  datatype Settings = Settings(timeCheckEnabled: bool, timeRanges: map<string, TimeRange>)

  /** `Partial<Settings>`, and equally the fields of a parsed stored object:
      `None` is a key that is not there. */
  datatype SettingsPatch = SettingsPatch(
    timeCheckEnabled: Option<bool>,
    timeRanges: Option<map<string, TimeRange>>)

  /** The text stored under a key: either it does not parse to an object,
      or it parses to these fields. */
  datatype StoredValue = Unparsable | Parsed(fields: SettingsPatch)

  const StorageKey: string := "folder-finder-settings"

  const DefaultTimeRanges: map<string, TimeRange> := map[
    "titlow-park-ruston-pics" := TimeRange(Some(15), Some(16)),
    "airport-pics" := TimeRange(Some(9), Some(13)),
    "arriving-sign-pics" := TimeRange(Some(8), Some(9))
  ]

  const InitialSettings: Settings := Settings(true, DefaultTimeRanges)

  /** The settings every default id has a range in. */
  predicate HasDefaultIds(s: Settings) {
    DefaultTimeRanges.Keys <= s.timeRanges.Keys
  }

  /** The defaults' ids, and their ranges' values. */
  lemma InitialSettingsShape()
    ensures InitialSettings.timeCheckEnabled
    ensures InitialSettings.timeRanges.Keys == {"titlow-park-ruston-pics", "airport-pics", "arriving-sign-pics"}
    ensures InitialSettings.timeRanges["titlow-park-ruston-pics"] == TimeRange(Some(15), Some(16))
    ensures InitialSettings.timeRanges["airport-pics"] == TimeRange(Some(9), Some(13))
    ensures InitialSettings.timeRanges["arriving-sign-pics"] == TimeRange(Some(8), Some(9))
    ensures HasDefaultIds(InitialSettings)
  {
  }

  /** `{ ...parsed, timeRanges: { ...defaultTimeRanges, ...parsed.timeRanges } }`.
      A stored object without `timeCheckEnabled` leaves it undefined, which
      every reader treats as false. */
  function MergeStored(stored: SettingsPatch): (s: Settings)
    ensures s.timeCheckEnabled <==> stored.timeCheckEnabled == Some(true)
    ensures HasDefaultIds(s)
    ensures forall id :: id in s.timeRanges <==>
      id in DefaultTimeRanges || (stored.timeRanges.Some? && id in stored.timeRanges.value)
    ensures forall id :: stored.timeRanges.Some? && id in stored.timeRanges.value ==>
      s.timeRanges[id] == stored.timeRanges.value[id]
    ensures forall id :: id in DefaultTimeRanges && !(stored.timeRanges.Some? && id in stored.timeRanges.value) ==>
      s.timeRanges[id] == DefaultTimeRanges[id]
  {
    Settings(stored.timeCheckEnabled.GetOr(false), DefaultTimeRanges + stored.timeRanges.GetOr(map[]))
  }

  /** What the mount effect leaves in place of `current`: a missing or
      unparsable stored value changes nothing. */
  function Loaded(current: Settings, stored: Option<StoredValue>): Settings {
    match stored
    case Some(Parsed(fields)) => MergeStored(fields)
    case _ => current
  }

  /** `{ ...prev, ...patch }`: a field present in the patch replaces, the
      other keeps its value. */
  function ApplyPatch(prev: Settings, patch: SettingsPatch): (s: Settings)
    ensures s.timeCheckEnabled == if patch.timeCheckEnabled.Some? then patch.timeCheckEnabled.value else prev.timeCheckEnabled
    ensures s.timeRanges == if patch.timeRanges.Some? then patch.timeRanges.value else prev.timeRanges
  {
    Settings(patch.timeCheckEnabled.GetOr(prev.timeCheckEnabled), patch.timeRanges.GetOr(prev.timeRanges))
  }

  /** `JSON.stringify` of whole settings: every field is written. */
  function Serialized(s: Settings): SettingsPatch {
    SettingsPatch(Some(s.timeCheckEnabled), Some(s.timeRanges))
  }

  /** Applying the same patch twice is applying it once. */
  lemma ApplyPatchIdempotent(s: Settings, patch: SettingsPatch)
    ensures ApplyPatch(ApplyPatch(s, patch), patch) == ApplyPatch(s, patch)
  {
  }

  /** Written settings load back as they were exactly when they hold a
      range for every default id; otherwise the defaults fill the gaps. */
  lemma ReloadRoundTrip(s: Settings)
    ensures MergeStored(Serialized(s)) == s <==> HasDefaultIds(s)
  {
    var m := MergeStored(Serialized(s));
    if HasDefaultIds(s) {
      assert m.timeRanges == s.timeRanges by {
        assert m.timeRanges.Keys == s.timeRanges.Keys;
      }
    }
  }

  /** `getInitialTimeRange(id)`: the default range, whatever the settings are now. */
  function GetInitialTimeRange(id: string): (r: Option<TimeRange>)
    ensures r.Some? <==> id in DefaultTimeRanges
    ensures r.Some? ==> r.value == DefaultTimeRanges[id]
  {
    if id in DefaultTimeRanges then Some(DefaultTimeRanges[id]) else None
  }

  /** The provider's state: the settings cell and the browser store it reads
      once and writes on every update. */
  class SettingsProvider {
    var settings: Settings
    var storage: map<string, StoredValue>
    var isInitialized: bool

    constructor (storage: map<string, StoredValue>)
      ensures settings == InitialSettings
      ensures this.storage == storage
      ensures !isInitialized
    {
      settings := InitialSettings;
      this.storage := storage;
      isInitialized := false;
    }

    /** The mount effect; a failure to read or parse is swallowed. */
    method LoadStoredSettings()
      modifies this
      ensures settings == Loaded(old(settings), if StorageKey in storage then Some(storage[StorageKey]) else None)
      ensures storage == old(storage)
      ensures isInitialized
    {
      if StorageKey in storage {
        match storage[StorageKey]
        case Parsed(fields) =>
          var merged := DefaultTimeRanges + fields.timeRanges.GetOr(map[]);
          settings := Settings(fields.timeCheckEnabled.GetOr(false), merged);
        case Unparsable =>
      }
      isInitialized := true;
    }

    /** `updateSettings(patch)`; `writeSucceeds` says whether
        `localStorage.setItem` returns normally. Either way the merged
        settings are adopted. */
    method UpdateSettings(patch: SettingsPatch, writeSucceeds: bool) returns (updated: Settings)
      modifies this
      ensures updated == ApplyPatch(old(settings), patch)
      ensures settings == updated
      ensures storage == if writeSucceeds then old(storage)[StorageKey := Parsed(Serialized(updated))] else old(storage)
      ensures isInitialized == old(isInitialized)
    {
      updated := Settings(
        if patch.timeCheckEnabled.Some? then patch.timeCheckEnabled.value else settings.timeCheckEnabled,
        if patch.timeRanges.Some? then patch.timeRanges.value else settings.timeRanges);
      if writeSucceeds {
        storage := storage[StorageKey := Parsed(Serialized(updated))];
      }
      settings := updated;
    }
  }

  /** Loading on a fresh provider keeps every default id, whatever was stored. */
  lemma LoadKeepsDefaultIds(stored: Option<StoredValue>)
    ensures HasDefaultIds(Loaded(InitialSettings, stored))
  {
  }

  /** After a successful write, loading the store again gives back the
      settings of the update, as long as they keep every default id. */
  lemma UpdateThenLoad(prev: Settings, patch: SettingsPatch)
    requires HasDefaultIds(ApplyPatch(prev, patch))
    ensures Loaded(InitialSettings, Some(Parsed(Serialized(ApplyPatch(prev, patch))))) == ApplyPatch(prev, patch)
  {
    ReloadRoundTrip(ApplyPatch(prev, patch));
  }
}
