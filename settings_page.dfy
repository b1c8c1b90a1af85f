/** The settings page of `src/app/settings/page.tsx`: the handlers compute
    the patch they hand to `updateSettings` (or decide not to call it), and
    the page lists the categories that have a default time range. */
module SettingsPage {
  import opened Wrappers
  import opened Text
  import opened Types
  import opened SettingsContext

  datatype Part = Start | End

  function OtherPart(part: Part): Part {
    match part
    case Start => End
    case End => Start
  }

  function PartOf(r: TimeRange, part: Part): Option<int> {
    match part
    case Start => r.start
    case End => r.end
  }

  /** `handleTimeCheckToggle(checked)`: the patch it passes to `updateSettings`. */
  function HandleTimeCheckToggle(checked: bool): (patch: SettingsPatch)
    ensures forall s :: ApplyPatch(s, patch) == s.(timeCheckEnabled := checked)
  {
    SettingsPatch(Some(checked), None)
  }

  /** The guard of `handleTimeChange`: the parsed number is an integer from 0 to 23. */
  predicate AcceptedHour(parsed: Option<int>) {
    parsed.Some? && 0 <= parsed.value <= 23
  }

  /** `handleTimeChange(id, part, value)` on the current settings, with
      `parseInt(value, 10)` given as `parsed` (`None` for `NaN`): the patch
      passed to `updateSettings`, or `None` when the handler returns without
      calling it. */
  function HandleTimeChange(current: Settings, id: string, part: Part, parsed: Option<int>): (patch: Option<SettingsPatch>)
    ensures patch.None? <==> !AcceptedHour(parsed)
    ensures patch.Some? ==> patch.value.timeCheckEnabled.None? && patch.value.timeRanges.Some?
    ensures patch.Some? ==>
      var ranges := patch.value.timeRanges.value;
      && ranges.Keys == current.timeRanges.Keys + {id}
      && (forall k :: k in current.timeRanges && k != id ==> ranges[k] == current.timeRanges[k])
      && PartOf(ranges[id], part) == parsed
      && PartOf(ranges[id], OtherPart(part)) ==
         (if id in current.timeRanges then PartOf(current.timeRanges[id], OtherPart(part)) else None)
  {
    if AcceptedHour(parsed) then
      var prior := if id in current.timeRanges then current.timeRanges[id] else TimeRange(None, None);
      var edited := match part
        case Start => prior.(start := parsed)
        case End => prior.(end := parsed);
      Some(SettingsPatch(None, Some(current.timeRanges[id := edited])))
    else
      None
  }

  /** The settings after `handleTimeChange` has run, whether or not it
      called `updateSettings`. */
  function AfterTimeChange(current: Settings, id: string, part: Part, parsed: Option<int>): Settings {
    match HandleTimeChange(current, id, part, parsed)
    case None => current
    case Some(patch) => ApplyPatch(current, patch)
  }

  /** A rejected value changes nothing; an accepted one sets one part of one
      id and leaves the toggle, the other part and every other id alone. */
  lemma TimeChangeEffect(current: Settings, id: string, part: Part, parsed: Option<int>)
    ensures var after := AfterTimeChange(current, id, part, parsed);
      && (!AcceptedHour(parsed) ==> after == current)
      && (AcceptedHour(parsed) ==>
        && after.timeCheckEnabled == current.timeCheckEnabled
        && after.timeRanges.Keys == current.timeRanges.Keys + {id}
        && (forall k :: k in current.timeRanges && k != id ==> after.timeRanges[k] == current.timeRanges[k])
        && PartOf(after.timeRanges[id], part) == parsed
        && PartOf(after.timeRanges[id], OtherPart(part)) ==
           (if id in current.timeRanges then PartOf(current.timeRanges[id], OtherPart(part)) else None))
  {
  }

  /** No handler check keeps `start <= end`: moving the start of the
      default airport range to 20 leaves it after its end, 13. */
  lemma TimeChangeCanInvertRange()
    ensures var after := AfterTimeChange(InitialSettings, "airport-pics", Start, Some(20));
      after.timeRanges["airport-pics"] == TimeRange(Some(20), Some(13))
  {
  }

  /** The page's edits never drop a default id. */
  lemma EditsKeepDefaultIds(current: Settings, id: string, part: Part, parsed: Option<int>, checked: bool)
    requires HasDefaultIds(current)
    ensures HasDefaultIds(AfterTimeChange(current, id, part, parsed))
    ensures HasDefaultIds(ApplyPatch(current, HandleTimeCheckToggle(checked)))
  {
  }

  /** `folderConfig.filter(config => getInitialTimeRange(config.id))`. */
  function TimeRelevantConfigs(configs: seq<FolderConfig>): (r: seq<FolderConfig>)
    ensures forall c :: c in r <==> c in configs && GetInitialTimeRange(c.id).Some?
    ensures forall c :: multiset(r)[c] == if c.id in DefaultTimeRanges then multiset(configs)[c] else 0
    ensures IsSubsequence(r, configs)
  {
    if configs == [] then []
    else
      var rest := TimeRelevantConfigs(configs[1..]);
      assert configs == [configs[0]] + configs[1..];
      if GetInitialTimeRange(configs[0].id).Some? then
        SubsequenceKeep(configs[0], rest, configs[1..]);
        [configs[0]] + rest
      else
        SubsequenceDrop(configs[0], rest, configs[1..]);
        rest
  }
}
