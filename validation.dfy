/** The folder validator of `src/app/page.tsx` (`validateFolders`): for each
    folder category, scan the files below `year/date`, match each one whose
    extension is required against every rule of the category, and report
    which required extensions were found and under which rule labels.

    The scan is specified as a left fold (`ScanFiles`, `ScanRules`) that the
    method `ValidateConfig` follows step by step; the lemmas then say what the
    fold computes in terms of the files and rules alone. */
module Validation {
  import opened Wrappers
  import opened Text
  import opened Types
  import opened SettingsContext

  const ManualCheckMessage: string := "Manual check required; no validation path defined."
  const AllFoundMessage: string := "All required file types found."
  const MissingPrefix: string := "Missing types: "

  // ---------------------------------------------------------------------
  // The compiled path pattern: every character literal except `*`, which
  // became `.*`, and `.` matches any character but a line terminator.

  predicate IsLineTerminator(c: char) {
    c == '\n' || c == '\r' || c == '\U{2028}' || c == '\U{2029}'
  }

  predicate NoLineTerminator(s: string) {
    forall i :: 0 <= i < |s| ==> !IsLineTerminator(s[i])
  }

  /** `new RegExp('^' + escaped pattern + '$').test(text)`. */
  predicate GlobMatch(pattern: string, text: string)
    decreases |pattern| + |text|
  {
    if pattern == [] then text == []
    else if pattern[0] == '*' then
      GlobMatch(pattern[1..], text) ||
      (text != [] && !IsLineTerminator(text[0]) && GlobMatch(pattern, text[1..]))
    else
      text != [] && text[0] == pattern[0] && GlobMatch(pattern[1..], text[1..])
  }

  /** A stretch of pattern without `*` matches exactly itself. */
  lemma {:induction false} GlobLiteral(lit: string, rest: string, text: string)
    requires '*' !in lit
    ensures GlobMatch(lit + rest, text) <==> lit <= text && GlobMatch(rest, text[|lit|..])
    decreases |lit|
  {
    if lit == [] {
      assert lit + rest == rest && text[0..] == text;
    } else {
      assert (lit + rest)[0] == lit[0] && (lit + rest)[1..] == lit[1..] + rest;
      if text != [] {
        GlobLiteral(lit[1..], rest, text[1..]);
        if |lit| <= |text| {
          assert text[1..][|lit| - 1..] == text[|lit|..];
        }
        assert lit <= text <==> lit[0] == text[0] && lit[1..] <= text[1..];
      }
    }
  }

  /** A `*` matches any run of characters without a line terminator. */
  lemma {:induction false} GlobStar(rest: string, text: string)
    ensures GlobMatch("*" + rest, text) <==>
      exists k :: 0 <= k <= |text| && NoLineTerminator(text[..k]) && GlobMatch(rest, text[k..])
    decreases |text|
  {
    var p := "*" + rest;
    assert p[0] == '*' && p[1..] == rest;
    if GlobMatch(rest, text) {
      assert NoLineTerminator(text[..0]) && text[0..] == text;
    }
    if text != [] {
      GlobStar(rest, text[1..]);
      if GlobMatch(p, text) && !GlobMatch(rest, text) {
        var k' :| 0 <= k' <= |text[1..]| && NoLineTerminator(text[1..][..k']) && GlobMatch(rest, text[1..][k'..]);
        assert text[..k' + 1] == [text[0]] + text[1..][..k'];
        assert text[k' + 1..] == text[1..][k'..];
      }
      if (exists k :: 0 <= k <= |text| && NoLineTerminator(text[..k]) && GlobMatch(rest, text[k..])) {
        var k :| 0 <= k <= |text| && NoLineTerminator(text[..k]) && GlobMatch(rest, text[k..]);
        if k > 0 {
          assert text[..k][0] == text[0];
          assert text[1..][..k - 1] == text[..k][1..];
          assert text[1..][k - 1..] == text[k..];
        } else {
          assert text[0..] == text;
        }
      }
    }
  }

  /** `prefix*` matches exactly the texts that start with `prefix` and go on
      without a line terminator. */
  lemma GlobPrefixPattern(prefix: string, text: string)
    requires '*' !in prefix
    ensures GlobMatch(prefix + "*", text) <==> prefix <= text && NoLineTerminator(text[|prefix|..])
  {
    GlobLiteral(prefix, "*", text);
    if prefix <= text {
      var tail := text[|prefix|..];
      GlobStar("", tail);
      assert "*" + "" == "*";
      if NoLineTerminator(tail) {
        assert tail[..|tail|] == tail && tail[|tail|..] == [];
      }
      if GlobMatch("*", tail) {
        var k :| 0 <= k <= |tail| && NoLineTerminator(tail[..k]) && GlobMatch("", tail[k..]);
        assert k == |tail| && tail[..k] == tail;
      }
    }
  }

  /** The rule pattern "PHOTOS/" then a star, below a base directory: it
      takes the folders under `PHOTOS` and not those under `VIDEOS`. */
  lemma PhotosPatternExample(base: string, sub: string)
    requires '*' !in base && NoLineTerminator(sub)
    ensures GlobMatch(base + "/" + "PHOTOS/*", base + "/PHOTOS/" + sub)
    ensures !GlobMatch(base + "/" + "PHOTOS/*", base + "/VIDEOS/" + sub)
  {
    var prefix := base + "/PHOTOS/";
    assert base + "/" + "PHOTOS/*" == prefix + "*";
    assert '*' !in prefix by {
      forall i | 0 <= i < |prefix| ensures prefix[i] != '*' {
        if i < |base| { assert prefix[i] == base[i]; }
      }
    }
    GlobPrefixPattern(prefix, base + "/PHOTOS/" + sub);
    GlobPrefixPattern(prefix, base + "/VIDEOS/" + sub);
    assert (base + "/PHOTOS/" + sub)[|prefix|..] == sub;
    assert prefix[|base| + 1] == 'P' && (base + "/VIDEOS/" + sub)[|base| + 1] == 'V';
  }

  // ---------------------------------------------------------------------
  // What one file and one rule contribute.

  /** `name.split('.').pop()?.toLowerCase()`. */
  function Extension(name: string): string {
    Lower(Last(Split(name, '.')))
  }

  /** The extension is the lower-cased text after the last dot, or the
      whole name when it has no dot. */
  lemma ExtensionAfterLastDot(name: string)
    ensures Extension(name) == Lower(name[LastIndexOf(name, '.') + 1..])
  {
    SplitLast(name, '.');
  }

  /** A name without a dot is its own extension. */
  lemma DotlessExtension(name: string)
    requires '.' !in name
    ensures Extension(name) == Lower(name)
  {
    ExtensionAfterLastDot(name);
    assert name[0..] == name;
  }

  /** `path.substring(0, path.lastIndexOf('/'))`; `substring` reads the
      end -1 as 0, so a path without `/` has the empty directory. */
  function Dir(path: string): string {
    var k := LastIndexOf(path, '/');
    if k < 0 then "" else path[..k]
  }

  /** `settings.timeCheckEnabled ? settings.timeRanges[config.id] : undefined`. */
  function RangeFor(settings: Settings, id: string): Option<TimeRange> {
    if settings.timeCheckEnabled && id in settings.timeRanges then Some(settings.timeRanges[id]) else None
  }

  /** The hour filter: no range accepts every hour; otherwise
      `hour >= start && hour <= end`, where a comparison with a missing part
      is false. */
  predicate HourOk(range: Option<TimeRange>, hour: int) {
    match range
    case None => true
    case Some(r) => r.start.Some? && r.end.Some? && r.start.value <= hour <= r.end.value
  }

  /** The keyword filter: a rule without `fileNameKeywords` accepts every
      name; otherwise the lower-cased name contains some lower-cased keyword. */
  predicate KeywordOk(rule: ValidationRule, name: string) {
    match rule.fileNameKeywords
    case None => true
    case Some(keywords) => AnyKeyword(Lower(name), keywords)
  }

  /** `keywords.some(keyword => nameLower.includes(keyword.toLowerCase()))`. */
  predicate AnyKeyword(nameLower: string, keywords: seq<string>) {
    keywords != [] && (Contains(nameLower, Lower(keywords[0])) || AnyKeyword(nameLower, keywords[1..]))
  }

  /** Some keyword, lower-cased, occurs in the name. */
  lemma {:induction false} AnyKeywordExists(nameLower: string, keywords: seq<string>)
    ensures AnyKeyword(nameLower, keywords) <==> exists k :: k in keywords && Contains(nameLower, Lower(k))
  {
    if keywords != [] {
      AnyKeywordExists(nameLower, keywords[1..]);
      assert keywords == [keywords[0]] + keywords[1..];
    }
  }

  /** The label a matching rule records; the empty string is falsy and records nothing. */
  function Label(rule: ValidationRule): Option<string> {
    if rule.category.Some? && rule.category.value != "" then rule.category else None
  }

  /** The file lies below `base` and its extension is a required one. */
  predicate Eligible(f: FileRecord, base: string, config: FolderConfig) {
    base <= f.relativePath && Extension(f.name) != "" && Extension(f.name) in config.requiredFiles
  }

  /** The rule accepts the file: directory pattern, keywords, hour. */
  predicate Hit(f: FileRecord, rule: ValidationRule, base: string, range: Option<TimeRange>) {
    && GlobMatch(base + "/" + rule.pathPattern, Dir(f.relativePath))
    && KeywordOk(rule, f.name)
    && HourOk(range, f.hour)
  }

  /** Every rule pattern starts with `base/`, so when `base` holds no `*`
      a rule accepts only files whose path starts with `base/`: the looser
      `startsWith(base)` test lets more files into the rules loop, but no
      rule takes them. */
  lemma HitWithinDateFolder(f: FileRecord, rule: ValidationRule, base: string, range: Option<TimeRange>)
    requires '*' !in base
    ensures Hit(f, rule, base, range) ==> base + "/" <= f.relativePath
  {
    var lit := base + "/";
    var d := Dir(f.relativePath);
    assert base + "/" + rule.pathPattern == lit + rule.pathPattern;
    assert '*' !in lit by {
      forall i | 0 <= i < |lit| ensures lit[i] != '*' {
        if i < |base| { assert lit[i] == base[i]; }
      }
    }
    GlobLiteral(lit, rule.pathPattern, d);
    assert d <= f.relativePath;
    if lit <= d {
      assert f.relativePath[..|lit|] == d[..|lit|];
    }
  }

  /** A path that continues `base` with something other than `/` (a file
      of the date folder `05-10` when the date is `05-1`) passes the prefix
      test, yet no rule accepts it. */
  lemma NeighbouringFolderRejected(f: FileRecord, rule: ValidationRule, base: string, range: Option<TimeRange>)
    requires '*' !in base && base <= f.relativePath
    requires |f.relativePath| > |base| && f.relativePath[|base|] != '/'
    ensures !Hit(f, rule, base, range)
  {
    HitWithinDateFolder(f, rule, base, range);
    assert (base + "/")[|base|] == '/';
  }

  /** An empty keyword list is still a list: the rule takes no file. */
  lemma EmptyKeywordListRejects(f: FileRecord, rule: ValidationRule, base: string, range: Option<TimeRange>)
    requires rule.fileNameKeywords == Some([])
    ensures !Hit(f, rule, base, range)
  {
  }

  /** With the time check off, the hour filter takes every hour. */
  lemma TimeCheckOffAcceptsAll(settings: Settings, id: string, hour: int)
    requires !settings.timeCheckEnabled
    ensures HourOk(RangeFor(settings, id), hour)
  {
  }

  /** A range whose start is after its end does not wrap around midnight:
      it takes no hour at all. */
  lemma InvertedRangeAcceptsNothing(settings: Settings, id: string, hour: int)
    requires settings.timeCheckEnabled && id in settings.timeRanges
    requires var r := settings.timeRanges[id]; r.start.Some? && r.end.Some? && r.start.value > r.end.value
    ensures !HourOk(RangeFor(settings, id), hour)
  {
  }

  /** The airport default, 9 to 13: hour 10 passes, hour 14 does not, and
      with the check off both pass. */
  lemma AirportHourExample(ranges: map<string, TimeRange>)
    requires "airport-pics" in ranges && ranges["airport-pics"] == TimeRange(Some(9), Some(13))
    ensures HourOk(RangeFor(Settings(true, ranges), "airport-pics"), 10)
    ensures !HourOk(RangeFor(Settings(true, ranges), "airport-pics"), 14)
    ensures HourOk(RangeFor(Settings(false, ranges), "airport-pics"), 14)
  {
  }

  // ---------------------------------------------------------------------
  // The scan as a fold.

  /** `foundFileTypes` and `foundFileDetails` part-way through the scan. */
  datatype Scan = Scan(found: set<string>, details: map<string, seq<string>>)

  /** Appends `category` under `ext` unless it is already there. */
  function AddLabel(details: map<string, seq<string>>, ext: string, category: string): map<string, seq<string>> {
    var prior := if ext in details then details[ext] else [];
    if category in prior then details else details[ext := prior + [category]]
  }

  /** What a matching rule records. */
  function Record(acc: Scan, ext: string, rule: ValidationRule): Scan {
    Scan(acc.found + {ext}, if Label(rule).Some? then AddLabel(acc.details, ext, Label(rule).value) else acc.details)
  }

  /** The rules loop for one eligible file, over the rules in order. */
  function ScanRules(acc: Scan, f: FileRecord, ext: string, rules: seq<ValidationRule>,
                     base: string, range: Option<TimeRange>): Scan
  {
    if rules == [] then acc
    else
      var before := ScanRules(acc, f, ext, rules[..|rules| - 1], base, range);
      var rule := rules[|rules| - 1];
      if Hit(f, rule, base, range) then Record(before, ext, rule) else before
  }

  /** The files loop of one category, over the files in order. */
  function ScanFiles(files: seq<FileRecord>, config: FolderConfig, base: string, range: Option<TimeRange>): Scan {
    if files == [] then Scan({}, map[])
    else
      var before := ScanFiles(files[..|files| - 1], config, base, range);
      var f := files[|files| - 1];
      if Eligible(f, base, config) then ScanRules(before, f, Extension(f.name), config.rules, base, range)
      else before
  }

  /** `requiredFiles` (as a set, so each once) that were not found, in order. */
  function Missing(required: seq<string>, found: set<string>): (missing: seq<string>)
    ensures forall x :: x in missing <==> x in required && x !in found
    ensures IsSubsequence(missing, required)
    ensures (forall x :: x in required ==> x !in found) ==> missing == required
    ensures (forall i, j :: 0 <= i < j < |required| ==> required[i] != required[j]) ==>
      forall i, j :: 0 <= i < j < |missing| ==> missing[i] != missing[j]
  {
    if required == [] then []
    else
      var rest := Missing(required[1..], found);
      assert required == [required[0]] + required[1..];
      if required[0] in found then
        SubsequenceDrop(required[0], rest, required[1..]);
        rest
      else
        SubsequenceKeep(required[0], rest, required[1..]);
        assert (forall i, j :: 0 <= i < j < |required| ==> required[i] != required[j]) ==> required[0] !in rest by {
          if required[0] in rest {
            var k :| 0 <= k < |required[1..]| && required[1..][k] == required[0];
            assert required[k + 1] == required[0];
          }
        }
        [required[0]] + rest
  }

  /** The status, message and details once the scan is over. */
  function Conclude(config: FolderConfig, scan: Scan): FolderStatus {
    var missing := Missing(Dedup(config.requiredFiles), scan.found);
    if missing == [] then FolderStatus(config.id, Passing, AllFoundMessage, scan.details)
    else FolderStatus(config.id, Failing, MissingPrefix + Join(missing, ", "), scan.details)
  }

  /** The result `validateFolders` gives one category. */
  function EvaluateConfig(files: seq<FileRecord>, year: string, date: string,
                          config: FolderConfig, settings: Settings): FolderStatus
  {
    if config.rules == [] then FolderStatus(config.id, Pending, ManualCheckMessage, map[])
    else Conclude(config, ScanFiles(files, config, year + "/" + date, RangeFor(settings, config.id)))
  }

  // ---------------------------------------------------------------------
  // What the fold computes, in terms of the files and rules alone.

  /** Some rule of the category accepts the file. */
  ghost predicate RulesHit(f: FileRecord, rules: seq<ValidationRule>, base: string, range: Option<TimeRange>) {
    exists j :: 0 <= j < |rules| && Hit(f, rules[j], base, range)
  }

  /** Some file below `base` with extension `ext` is accepted by some rule:
      the condition under which `ext` lands in `foundFileTypes`. */
  ghost predicate Witnessed(files: seq<FileRecord>, config: FolderConfig, base: string, range: Option<TimeRange>, ext: string) {
    exists i :: 0 <= i < |files| && Eligible(files[i], base, config) && Extension(files[i].name) == ext &&
      RulesHit(files[i], config.rules, base, range)
  }

  /** The labels of the rules that accept one file, in rule order, repeats kept. */
  function RuleLabels(f: FileRecord, rules: seq<ValidationRule>, base: string, range: Option<TimeRange>): seq<string> {
    if rules == [] then []
    else
      var before := RuleLabels(f, rules[..|rules| - 1], base, range);
      var rule := rules[|rules| - 1];
      if Hit(f, rule, base, range) && Label(rule).Some? then before + [Label(rule).value] else before
  }

  /** A label is among a file's `RuleLabels` exactly when a rule carrying it
      accepts the file; so a file with a label is accepted by some rule. */
  lemma {:induction false} RuleLabelsWitness(f: FileRecord, rules: seq<ValidationRule>, base: string,
                                             range: Option<TimeRange>, c: string)
    ensures c in RuleLabels(f, rules, base, range) <==>
      exists j :: 0 <= j < |rules| && Hit(f, rules[j], base, range) && Label(rules[j]) == Some(c)
    ensures c in RuleLabels(f, rules, base, range) ==> RulesHit(f, rules, base, range)
  {
    if rules != [] {
      var n := |rules| - 1;
      var init := rules[..n];
      var rule := rules[n];
      RuleLabelsWitness(f, init, base, range, c);
      if c in RuleLabels(f, init, base, range) {
        var j :| 0 <= j < |init| && Hit(f, init[j], base, range) && Label(init[j]) == Some(c);
        assert rules[j] == init[j];
      } else if Hit(f, rule, base, range) && Label(rule) == Some(c) {
        assert rules[n] == rule;
      } else {
        forall j | 0 <= j < |rules| && Hit(f, rules[j], base, range) ensures Label(rules[j]) != Some(c) {
          if j < n {
            assert init[j] == rules[j];
          }
        }
      }
    }
  }

  /** The labels recorded for `ext` over all files in order, repeats kept. */
  function HitLabels(files: seq<FileRecord>, config: FolderConfig, base: string, range: Option<TimeRange>, ext: string): seq<string> {
    if files == [] then []
    else
      var f := files[|files| - 1];
      HitLabels(files[..|files| - 1], config, base, range, ext) +
        (if Eligible(f, base, config) && Extension(f.name) == ext then RuleLabels(f, config.rules, base, range) else [])
  }

  /** A label of an eligible file of type `ext` is among the labels of `ext`. */
  lemma {:induction false} HitLabelsComplete(files: seq<FileRecord>, config: FolderConfig, base: string,
                                             range: Option<TimeRange>, ext: string, c: string, i: nat)
    requires i < |files| && Eligible(files[i], base, config) && Extension(files[i].name) == ext
    requires c in RuleLabels(files[i], config.rules, base, range)
    ensures c in HitLabels(files, config, base, range, ext)
  {
    var n := |files| - 1;
    ScanFilesUnfold(files, config, base, range, ext);
    if i < n {
      assert files[..n][i] == files[i];
      HitLabelsComplete(files[..n], config, base, range, ext, c, i);
    }
  }

  /** Every label of `ext` comes from an eligible file of that type. */
  lemma {:induction false} HitLabelsSource(files: seq<FileRecord>, config: FolderConfig, base: string,
                                           range: Option<TimeRange>, ext: string, c: string) returns (i: nat)
    requires c in HitLabels(files, config, base, range, ext)
    ensures i < |files| && Eligible(files[i], base, config) && Extension(files[i].name) == ext
    ensures c in RuleLabels(files[i], config.rules, base, range)
  {
    var n := |files| - 1;
    ScanFilesUnfold(files, config, base, range, ext);
    if c in HitLabels(files[..n], config, base, range, ext) {
      i := HitLabelsSource(files[..n], config, base, range, ext, c);
      assert files[..n][i] == files[i];
    } else {
      i := n;
    }
  }

  /** Dedup of a list grown by one is the old dedup with the new element
      appended unless it was already there: how `AddLabel` keeps a list. */
  lemma DedupSnoc(s: seq<string>, x: string)
    ensures Dedup(s + [x]) == if x in Dedup(s) then Dedup(s) else Dedup(s) + [x]
  {
    assert (s + [x])[..|s + [x]| - 1] == s;
  }

  /** The entries of every extension other than `ext` are as they were. */
  ghost predicate OthersKept(acc: Scan, r: Scan, ext: string) {
    && (forall x :: x != ext ==> (x in r.details <==> x in acc.details))
    && (forall x :: x != ext && x in acc.details ==> r.details[x] == acc.details[x])
  }

  /** The entry of `ext` is present exactly when `labels` is non-empty,
      and then lists those labels once each, in order of first occurrence. */
  ghost predicate EntryIs(r: Scan, ext: string, labels: seq<string>) {
    && (ext in r.details <==> labels != [])
    && (ext in r.details ==> r.details[ext] == Dedup(labels))
  }

  /** Some rule of `rules` hits iff one before the last does or the last does. */
  lemma RulesHitSnoc(f: FileRecord, rules: seq<ValidationRule>, base: string, range: Option<TimeRange>)
    requires rules != []
    ensures RulesHit(f, rules, base, range) <==>
      RulesHit(f, rules[..|rules| - 1], base, range) || Hit(f, rules[|rules| - 1], base, range)
  {
    var init := rules[..|rules| - 1];
    if RulesHit(f, init, base, range) {
      var j :| 0 <= j < |init| && Hit(f, init[j], base, range);
      assert rules[j] == init[j];
    }
    if RulesHit(f, rules, base, range) && !Hit(f, rules[|rules| - 1], base, range) {
      var j :| 0 <= j < |rules| && Hit(f, rules[j], base, range);
      assert j < |init| && init[j] == rules[j];
    }
  }

  /** The rules loop adds `ext` to the found types exactly when some rule hits. */
  lemma {:induction false} ScanRulesFound(acc: Scan, f: FileRecord, ext: string, rules: seq<ValidationRule>,
                                          base: string, range: Option<TimeRange>)
    ensures ScanRules(acc, f, ext, rules, base, range).found ==
      acc.found + (if RulesHit(f, rules, base, range) then {ext} else {})
  {
    if rules != [] {
      ScanRulesFound(acc, f, ext, rules[..|rules| - 1], base, range);
      RulesHitSnoc(f, rules, base, range);
    }
  }

  /** The rules loop of a file of type `ext` touches no other entry. */
  lemma {:induction false} ScanRulesOthers(acc: Scan, f: FileRecord, ext: string, rules: seq<ValidationRule>,
                                           base: string, range: Option<TimeRange>)
    ensures OthersKept(acc, ScanRules(acc, f, ext, rules, base, range), ext)
  {
    if rules != [] {
      ScanRulesOthers(acc, f, ext, rules[..|rules| - 1], base, range);
    }
  }

  /** One more rule, as far as the entry of `ext` goes. */
  lemma ScanRulesEntryStep(acc: Scan, f: FileRecord, ext: string, rules: seq<ValidationRule>,
                           base: string, range: Option<TimeRange>, prior: seq<string>)
    requires rules != []
    requires EntryIs(ScanRules(acc, f, ext, rules[..|rules| - 1], base, range), ext,
      prior + RuleLabels(f, rules[..|rules| - 1], base, range))
    ensures EntryIs(ScanRules(acc, f, ext, rules, base, range), ext, prior + RuleLabels(f, rules, base, range))
  {
    var init := rules[..|rules| - 1];
    var rule := rules[|rules| - 1];
    var labels := prior + RuleLabels(f, init, base, range);
    var added := if Label(rule).Some? then [Label(rule).value] else [];
    ScanRulesUnfold(acc, f, ext, rules, base, range);
    if Hit(f, rule, base, range) {
      RecordEntry(ScanRules(acc, f, ext, init, base, range), ext, rule, labels);
      assert prior + (RuleLabels(f, init, base, range) + added) == labels + added;
    } else {
      assert prior + (RuleLabels(f, init, base, range) + []) == labels;
    }
  }

  /** One step of the rules loop. */
  lemma ScanRulesUnfold(acc: Scan, f: FileRecord, ext: string, rules: seq<ValidationRule>,
                        base: string, range: Option<TimeRange>)
    requires rules != []
    ensures var init := rules[..|rules| - 1];
      var rule := rules[|rules| - 1];
      && ScanRules(acc, f, ext, rules, base, range) ==
           (if Hit(f, rule, base, range) then Record(ScanRules(acc, f, ext, init, base, range), ext, rule)
            else ScanRules(acc, f, ext, init, base, range))
      && RuleLabels(f, rules, base, range) ==
           RuleLabels(f, init, base, range) +
             (if Hit(f, rule, base, range) && Label(rule).Some? then [Label(rule).value] else [])
  {
  }

  /** Recording a hit appends the rule's label, if any, to the labels of `ext`. */
  lemma RecordEntry(before: Scan, ext: string, rule: ValidationRule, labels: seq<string>)
    requires EntryIs(before, ext, labels)
    ensures EntryIs(Record(before, ext, rule), ext, labels + if Label(rule).Some? then [Label(rule).value] else [])
  {
    if Label(rule).Some? {
      DedupSnoc(labels, Label(rule).value);
    } else {
      assert labels + [] == labels;
    }
  }

  /** The rules loop leaves under `ext` the dedup of the labels recorded
      before it (`prior`) followed by those of the rules that hit. */
  lemma {:induction false} ScanRulesEntry(acc: Scan, f: FileRecord, ext: string, rules: seq<ValidationRule>,
                                          base: string, range: Option<TimeRange>, prior: seq<string>)
    requires EntryIs(acc, ext, prior)
    ensures EntryIs(ScanRules(acc, f, ext, rules, base, range), ext, prior + RuleLabels(f, rules, base, range))
  {
    if rules == [] {
      assert prior + [] == prior;
    } else {
      ScanRulesEntry(acc, f, ext, rules[..|rules| - 1], base, range, prior);
      ScanRulesEntryStep(acc, f, ext, rules, base, range, prior);
    }
  }

  /** A type is witnessed by `files` iff by a file before the last or by the last. */
  lemma WitnessedSnoc(files: seq<FileRecord>, config: FolderConfig, base: string, range: Option<TimeRange>, x: string)
    requires files != []
    ensures var f := files[|files| - 1];
      Witnessed(files, config, base, range, x) <==>
      Witnessed(files[..|files| - 1], config, base, range, x) ||
      (Eligible(f, base, config) && Extension(f.name) == x && RulesHit(f, config.rules, base, range))
  {
    var n := |files| - 1;
    var prefix := files[..n];
    if Witnessed(prefix, config, base, range, x) {
      var i :| 0 <= i < |prefix| && Eligible(prefix[i], base, config) && Extension(prefix[i].name) == x &&
        RulesHit(prefix[i], config.rules, base, range);
      assert files[i] == prefix[i];
    }
    if Witnessed(files, config, base, range, x) {
      var i :| 0 <= i < |files| && Eligible(files[i], base, config) && Extension(files[i].name) == x &&
        RulesHit(files[i], config.rules, base, range);
      if i < n {
        assert prefix[i] == files[i];
      }
    }
  }

  /** The files loop gathers in `foundFileTypes` exactly the witnessed types. */
  lemma {:induction false} ScanFilesFound(files: seq<FileRecord>, config: FolderConfig, base: string, range: Option<TimeRange>)
    ensures forall x :: x in ScanFiles(files, config, base, range).found <==> Witnessed(files, config, base, range, x)
  {
    if files != [] {
      var prefix := files[..|files| - 1];
      var f := files[|files| - 1];
      ScanFilesFound(prefix, config, base, range);
      if Eligible(f, base, config) {
        ScanRulesFound(ScanFiles(prefix, config, base, range), f, Extension(f.name), config.rules, base, range);
      }
      forall x ensures x in ScanFiles(files, config, base, range).found <==> Witnessed(files, config, base, range, x) {
        WitnessedSnoc(files, config, base, range, x);
      }
    }
  }

  /** One step of the files loop. */
  lemma ScanFilesUnfold(files: seq<FileRecord>, config: FolderConfig, base: string, range: Option<TimeRange>, x: string)
    requires files != []
    ensures var prefix := files[..|files| - 1];
      var f := files[|files| - 1];
      && ScanFiles(files, config, base, range) ==
           (if Eligible(f, base, config) then ScanRules(ScanFiles(prefix, config, base, range), f, Extension(f.name), config.rules, base, range)
            else ScanFiles(prefix, config, base, range))
      && HitLabels(files, config, base, range, x) ==
           HitLabels(prefix, config, base, range, x) +
             (if Eligible(f, base, config) && Extension(f.name) == x then RuleLabels(f, config.rules, base, range) else [])
  {
  }

  /** An entry the rules loop does not touch keeps its description. */
  lemma OthersKeptEntry(acc: Scan, r: Scan, ext: string, x: string, labels: seq<string>)
    requires OthersKept(acc, r, ext) && x != ext && EntryIs(acc, x, labels)
    ensures EntryIs(r, x, labels)
  {
  }

  /** One more file, as far as the entry of `x` in `foundFileDetails` goes. */
  lemma ScanFilesDetailsStep(files: seq<FileRecord>, config: FolderConfig, base: string, range: Option<TimeRange>, x: string)
    requires files != []
    requires EntryIs(ScanFiles(files[..|files| - 1], config, base, range), x, HitLabels(files[..|files| - 1], config, base, range, x))
    ensures EntryIs(ScanFiles(files, config, base, range), x, HitLabels(files, config, base, range, x))
  {
    var prefix := files[..|files| - 1];
    var f := files[|files| - 1];
    var before := ScanFiles(prefix, config, base, range);
    var prior := HitLabels(prefix, config, base, range, x);
    var ext := Extension(f.name);
    ScanFilesUnfold(files, config, base, range, x);
    if Eligible(f, base, config) {
      if x == ext {
        ScanRulesEntry(before, f, ext, config.rules, base, range, prior);
      } else {
        assert prior + [] == prior;
        ScanRulesOthers(before, f, ext, config.rules, base, range);
        OthersKeptEntry(before, ScanRules(before, f, ext, config.rules, base, range), ext, x, prior);
      }
    } else {
      assert prior + [] == prior;
    }
  }

  /** The files loop leaves in `foundFileDetails` an entry for `x` exactly
      when some label was recorded for it, and then those labels once each
      in order of first hit. */
  lemma {:induction false} ScanFilesDetails(files: seq<FileRecord>, config: FolderConfig, base: string,
                                            range: Option<TimeRange>, x: string)
    ensures EntryIs(ScanFiles(files, config, base, range), x, HitLabels(files, config, base, range, x))
  {
    if files != [] {
      ScanFilesDetails(files[..|files| - 1], config, base, range, x);
      ScanFilesDetailsStep(files, config, base, range, x);
    }
  }

  /** Only a required, non-empty extension can be witnessed. */
  lemma FoundWithinRequired(files: seq<FileRecord>, config: FolderConfig, base: string, range: Option<TimeRange>, ext: string)
    requires Witnessed(files, config, base, range, ext)
    ensures ext in config.requiredFiles && ext != ""
  {
  }

  /** The required types, once each in order of first mention, that no
      accepted file supplied. */
  function MissingTypes(files: seq<FileRecord>, year: string, date: string, config: FolderConfig, settings: Settings): (missing: seq<string>)
    ensures forall x :: x in missing <==>
      x in config.requiredFiles && !Witnessed(files, config, year + "/" + date, RangeFor(settings, config.id), x)
    ensures forall i, j :: 0 <= i < j < |missing| ==> missing[i] != missing[j]
    ensures IsSubsequence(missing, Dedup(config.requiredFiles))
  {
    var base := year + "/" + date;
    ScanFilesFound(files, config, base, RangeFor(settings, config.id));
    Missing(Dedup(config.requiredFiles), ScanFiles(files, config, base, RangeFor(settings, config.id)).found)
  }

  /** What `validateFolders` reports for one category: no rules means a
      manual check; otherwise it passes exactly when every required type
      was witnessed, and a failure lists the missing types. */
  lemma EvaluateStatus(files: seq<FileRecord>, year: string, date: string, config: FolderConfig, settings: Settings)
    ensures var st := EvaluateConfig(files, year, date, config, settings);
      && st.id == config.id
      && (config.rules == [] ==> st == FolderStatus(config.id, Pending, ManualCheckMessage, map[]))
      && (config.rules != [] ==>
        && st.status != Pending
        && (st.status == Passing <==>
            forall x :: x in config.requiredFiles ==> Witnessed(files, config, year + "/" + date, RangeFor(settings, config.id), x))
        && (st.status == Passing ==> st.message == AllFoundMessage)
        && (st.status == Failing ==> st.message == MissingPrefix + Join(MissingTypes(files, year, date, config, settings), ", ")))
  {
    var missing := MissingTypes(files, year, date, config, settings);
    ScanFilesFound(files, config, year + "/" + date, RangeFor(settings, config.id));
    if config.rules != [] && missing != [] {
      assert missing[0] in missing;
    }
  }

  /** A category with rules and no required types passes. */
  lemma EmptyRequiredPasses(files: seq<FileRecord>, year: string, date: string, config: FolderConfig, settings: Settings)
    requires config.rules != [] && config.requiredFiles == []
    ensures EvaluateConfig(files, year, date, config, settings).status == Passing
  {
    EvaluateStatus(files, year, date, config, settings);
  }

  /** With no files, a category with rules and required types fails and
      lists every required type once. */
  lemma NoFilesAllMissing(year: string, date: string, config: FolderConfig, settings: Settings)
    requires config.rules != [] && config.requiredFiles != []
    ensures var st := EvaluateConfig([], year, date, config, settings);
      st.status == Failing && st.message == MissingPrefix + Join(Dedup(config.requiredFiles), ", ") && st.foundFileDetails == map[]
  {
    assert Dedup(config.requiredFiles) != [] by {
      assert config.requiredFiles[0] in Dedup(config.requiredFiles);
    }
  }

  /** `foundFileDetails` of one category: its keys are witnessed types, and
      under each key are, once each, exactly the non-empty categories of the
      rules that accepted a file of that type. */
  lemma FoundFileDetailsMeaning(files: seq<FileRecord>, year: string, date: string, config: FolderConfig, settings: Settings,
                                ext: string, c: string)
    requires config.rules != []
    ensures var st := EvaluateConfig(files, year, date, config, settings);
      var base := year + "/" + date;
      var range := RangeFor(settings, config.id);
      && (ext in st.foundFileDetails ==> Witnessed(files, config, base, range, ext))
      && (ext in st.foundFileDetails ==>
           forall i, j :: 0 <= i < j < |st.foundFileDetails[ext]| ==> st.foundFileDetails[ext][i] != st.foundFileDetails[ext][j])
      && ((ext in st.foundFileDetails && c in st.foundFileDetails[ext]) <==>
           exists i :: 0 <= i < |files| && Eligible(files[i], base, config) && Extension(files[i].name) == ext &&
             c in RuleLabels(files[i], config.rules, base, range))
  {
    var base := year + "/" + date;
    var range := RangeFor(settings, config.id);
    ScanFilesDetails(files, config, base, range, ext);
    var labels := HitLabels(files, config, base, range, ext);
    if labels != [] {
      var i := HitLabelsSource(files, config, base, range, ext, labels[0]);
      RuleLabelsWitness(files[i], config.rules, base, range, labels[0]);
    }
    if c in labels {
      var i := HitLabelsSource(files, config, base, range, ext, c);
    }
    if exists i :: 0 <= i < |files| && Eligible(files[i], base, config) && Extension(files[i].name) == ext &&
        c in RuleLabels(files[i], config.rules, base, range) {
      var i :| 0 <= i < |files| && Eligible(files[i], base, config) && Extension(files[i].name) == ext &&
        c in RuleLabels(files[i], config.rules, base, range);
      HitLabelsComplete(files, config, base, range, ext, c, i);
    }
  }

  // ---------------------------------------------------------------------
  // The imperative code.

  /** The rules loop for one eligible file, from the sets gathered so far. */
  method ScanFile(found0: set<string>, details0: map<string, seq<string>>, f: FileRecord, ext: string,
                  fileDir: string, rules: seq<ValidationRule>, base: string, range: Option<TimeRange>)
    returns (found: set<string>, details: map<string, seq<string>>)
    requires fileDir == Dir(f.relativePath)
    ensures Scan(found, details) == ScanRules(Scan(found0, details0), f, ext, rules, base, range)
  {
    found, details := found0, details0;
    for j := 0 to |rules|
      invariant Scan(found, details) == ScanRules(Scan(found0, details0), f, ext, rules[..j], base, range)
    {
      var rule := rules[j];
      assert rules[..j + 1][..j] == rules[..j];
      if !GlobMatch(base + "/" + rule.pathPattern, fileDir) {
        continue;
      }
      if rule.fileNameKeywords.Some? && !KeywordOk(rule, f.name) {
        continue;
      }
      if range.Some? && !HourOk(range, f.hour) {
        continue;
      }
      found := found + {ext};
      if rule.category.Some? && rule.category.value != "" {
        var category := rule.category.value;
        if ext !in details {
          details := details[ext := []];
        }
        if category !in details[ext] {
          details := details[ext := details[ext] + [category]];
        }
      }
    }
    assert rules[..|rules|] == rules;
  }

  /** The callback `validateFolders` maps over the categories. */
  method ValidateConfig(files: seq<FileRecord>, year: string, date: string,
                        config: FolderConfig, settings: Settings)
    returns (result: FolderStatus)
    ensures result == EvaluateConfig(files, year, date, config, settings)
  {
    if config.rules == [] {
      return FolderStatus(config.id, Pending, ManualCheckMessage, map[]);
    }
    var base := year + "/" + date;
    var range := RangeFor(settings, config.id);
    var found: set<string> := {};
    var details: map<string, seq<string>> := map[];
    for i := 0 to |files|
      invariant Scan(found, details) == ScanFiles(files[..i], config, base, range)
    {
      var f := files[i];
      assert files[..i + 1][..i] == files[..i];
      if !(base <= f.relativePath) {
        continue;
      }
      var fileDir := Dir(f.relativePath);
      var ext := Extension(f.name);
      if ext == "" || ext !in config.requiredFiles {
        continue;
      }
      found, details := ScanFile(found, details, f, ext, fileDir, config.rules, base, range);
    }
    assert files[..|files|] == files;
    result := Conclude(config, Scan(found, details));
  }

  /** `validateFolders(files, year, date)`: one result per category, in order. */
  method ValidateFolders(files: seq<FileRecord>, year: string, date: string,
                         configs: seq<FolderConfig>, settings: Settings)
    returns (statuses: seq<FolderStatus>)
    ensures |statuses| == |configs|
    ensures forall k :: 0 <= k < |configs| ==> statuses[k].id == configs[k].id
    ensures forall k :: 0 <= k < |configs| ==> statuses[k] == EvaluateConfig(files, year, date, configs[k], settings)
  {
    statuses := [];
    for c := 0 to |configs|
      invariant |statuses| == c
      invariant forall k :: 0 <= k < c ==> statuses[k] == EvaluateConfig(files, year, date, configs[k], settings)
    {
      var status := ValidateConfig(files, year, date, configs[c], settings);
      statuses := statuses + [status];
    }
  }
}
