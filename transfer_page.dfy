/** The upload side of the validator page in `src/app/page.tsx`: the check
    that the chosen folder is a year-transfer folder, the year and date
    facets read off the uploaded paths, the page state `handleFileChange`
    resets, and the `tableData` join of the categories with their results. */
module TransferPage {
  import opened Wrappers
  import opened Text
  import opened Types

  const AwaitingUploadMessage: string := "Awaiting folder upload."
  const AwaitingSelectionMessage: string := "Awaiting selection."
  const AwaitingScanMessage: string := "Awaiting scan."

  // ---------------------------------------------------------------------
  // The root check.

  /** `\d` of a JavaScript pattern without the `u` flag: an ASCII digit. */
  predicate IsDigit(c: char) {
    '0' <= c <= '9'
  }

  /** `/^\d{4} TRANSFER$/.test(segment)`. */
  predicate IsTransferRoot(segment: string) {
    && |segment| == 13
    && IsDigit(segment[0]) && IsDigit(segment[1]) && IsDigit(segment[2]) && IsDigit(segment[3])
    && segment[4..] == " TRANSFER"
  }

  /** `path.split('/')[0]`: the text before the first `/`. */
  function FirstSegment(path: string): string {
    Split(path, '/')[0]
  }

  predicate NoSlash(s: string) {
    forall k :: 0 <= k < |s| ==> s[k] != '/'
  }

  /** The first segment is the whole text before the first `/`. */
  lemma FirstSegmentOf(root: string, rest: string)
    requires NoSlash(root)
    ensures FirstSegment(root + "/" + rest) == root
    ensures FirstSegment(root) == root
  {
    SplitAt(root, '/', rest);
    SplitAbsent(root, '/');
  }

  /** The year folder is accepted; the parent folder, a name with a
      five-digit year and one with a suffix are not. */
  lemma RootCheckExamples()
    ensures IsTransferRoot("2024 TRANSFER")
    ensures !IsTransferRoot("01_TRANSFERS")
    ensures !IsTransferRoot("20245 TRANSFER")
    ensures !IsTransferRoot("2024 TRANSFER (copy)")
  {
    assert "01_TRANSFERS"[4] == 'R';
  }

  // ---------------------------------------------------------------------
  // The facets of one path.

  /** The year and date folders of a path: its first two segments, when it
      has at least two and both are non-empty. */
  function Facet(path: string): Option<(string, string)> {
    var parts := Split(path, '/');
    if |parts| > 1 && parts[0] != "" && parts[1] != "" then Some((parts[0], parts[1])) else None
  }

  /** A path `year/date`, possibly followed by `/` and more, has those facets. */
  lemma FacetOfPath(year: string, date: string, rest: string)
    requires NoSlash(year) && NoSlash(date) && year != "" && date != ""
    requires rest == "" || rest[0] == '/'
    ensures Facet(year + "/" + date + rest) == Some((year, date))
  {
    assert year + "/" + date + rest == year + ['/'] + (date + rest);
    SplitAt(year, '/', date + rest);
    if rest == "" {
      assert date + rest == date;
      SplitAbsent(date, '/');
    } else {
      assert date + rest == date + ['/'] + rest[1..];
      SplitAt(date, '/', rest[1..]);
    }
  }

  /** Facets are non-empty `/`-free segments that open the path. */
  lemma FacetSound(path: string)
    requires Facet(path).Some?
    ensures var (year, date) := Facet(path).value;
      && NoSlash(year) && NoSlash(date) && year != "" && date != ""
      && year + "/" + date <= path
  {
    var i := IndexOf(path, '/');
    IndexOfFirst(path, '/');
    if i >= 0 {
      var year := path[..i];
      var rest := path[i + 1..];
      SplitStep(path, '/');
      var j := IndexOf(rest, '/');
      IndexOfFirst(rest, '/');
      var date := if j < 0 then rest else rest[..j];
      if j >= 0 {
        SplitStep(rest, '/');
      }
      assert Facet(path).value == (year, date);
      assert NoSlash(year);
      assert NoSlash(date);
      assert path == year + "/" + rest;
      assert date <= rest;
    }
  }

  /** A path with one segment has no facets. */
  lemma FacetNone(path: string)
    requires NoSlash(path)
    ensures Facet(path) == None
  {
    SplitAbsent(path, '/');
  }

  // ---------------------------------------------------------------------
  // All facets of an upload.

  /** `yearAndDateMap` after the loop has seen `paths`. */
  function FacetMap(paths: seq<string>): map<string, set<string>> {
    if paths == [] then map[]
    else
      var m := FacetMap(paths[..|paths| - 1]);
      match Facet(paths[|paths| - 1])
      case None => m
      case Some((year, date)) => m[year := (if year in m then m[year] else {}) + {date}]
  }

  /** A date is listed under a year exactly when some path has those facets. */
  lemma {:induction false} FacetMapComplete(paths: seq<string>, i: nat)
    requires i < |paths| && Facet(paths[i]).Some?
    ensures var (year, date) := Facet(paths[i]).value;
      year in FacetMap(paths) && date in FacetMap(paths)[year]
  {
    var n := |paths| - 1;
    if i < n {
      assert paths[..n][i] == paths[i];
      FacetMapComplete(paths[..n], i);
    }
  }

  /** Every listed date comes from a path with those facets. */
  lemma {:induction false} FacetMapSource(paths: seq<string>, year: string, date: string) returns (i: nat)
    requires year in FacetMap(paths) && date in FacetMap(paths)[year]
    ensures i < |paths| && Facet(paths[i]) == Some((year, date))
  {
    var n := |paths| - 1;
    var m := FacetMap(paths[..n]);
    if year in m && date in m[year] {
      i := FacetMapSource(paths[..n], year, date);
      assert paths[..n][i] == paths[i];
    } else {
      i := n;
    }
  }

  /** Every year listed has at least one date. */
  lemma {:induction false} FacetMapNonEmpty(paths: seq<string>, year: string)
    requires year in FacetMap(paths)
    ensures FacetMap(paths)[year] != {}
  {
    var n := |paths| - 1;
    if year in FacetMap(paths[..n]) {
      FacetMapNonEmpty(paths[..n], year);
    }
  }

  /** The years and the dates per year of an upload, each sorted and without
      repeats, listing exactly what `FacetMap` holds. */
  ghost predicate FacetsOf(paths: seq<string>, years: seq<string>, datesByYear: map<string, seq<string>>) {
    var m := FacetMap(paths);
    && StrictlySorted(years)
    && (forall y :: y in years <==> y in m)
    && datesByYear.Keys == m.Keys
    && (forall y :: y in datesByYear ==> StrictlySorted(datesByYear[y]))
    && (forall y, d :: y in datesByYear ==> (d in datesByYear[y] <==> d in m[y]))
  }

  /** The facets of an upload are determined by the paths alone. */
  lemma FacetsUnique(paths: seq<string>, years: seq<string>, dates: map<string, seq<string>>,
                     years': seq<string>, dates': map<string, seq<string>>)
    requires FacetsOf(paths, years, dates) && FacetsOf(paths, years', dates')
    ensures years == years' && dates == dates'
  {
    SortedUnique(years, years');
    forall y | y in dates ensures dates[y] == dates'[y] {
      SortedUnique(dates[y], dates'[y]);
    }
  }

  /** The two loops of `handleFileChange` after the root check: gather the
      dates of each year, then sort the years and each year's dates. */
  method ExtractFacets(paths: seq<string>) returns (years: seq<string>, datesByYear: map<string, seq<string>>)
    ensures FacetsOf(paths, years, datesByYear)
  {
    var yearAndDateMap: map<string, set<string>> := map[];
    for i := 0 to |paths|
      invariant yearAndDateMap == FacetMap(paths[..i])
    {
      assert paths[..i + 1][..i] == paths[..i];
      var parts := Split(paths[i], '/');
      if |parts| > 1 {
        var yearDir := parts[0];
        var dateDir := parts[1];
        if yearDir != "" && dateDir != "" {
          if yearDir !in yearAndDateMap {
            yearAndDateMap := yearAndDateMap[yearDir := {}];
          }
          yearAndDateMap := yearAndDateMap[yearDir := yearAndDateMap[yearDir] + {dateDir}];
        }
      }
    }
    assert paths[..|paths|] == paths;
    years := SortSet(yearAndDateMap.Keys);
    datesByYear := map[];
    for k := 0 to |years|
      invariant datesByYear.Keys == set y | y in years[..k]
      invariant forall y :: y in datesByYear ==> StrictlySorted(datesByYear[y])
      invariant forall y, d :: y in datesByYear ==> (d in datesByYear[y] <==> d in yearAndDateMap[y])
    {
      var dates := SortSet(yearAndDateMap[years[k]]);
      datesByYear := datesByYear[years[k] := dates];
      assert years[..k + 1] == years[..k] + [years[k]];
    }
    assert years[..|years|] == years;
  }

  // ---------------------------------------------------------------------
  // The table.

  /** One row of `tableData`: the category with its current result. */
  datatype TableRow = TableRow(config: FolderConfig, status: Status, message: string,
                               foundFileDetails: map<string, seq<string>>)

  /** `statuses.find(s => s.id === id)`. */
  function FindStatus(statuses: seq<FolderStatus>, id: string): (r: Option<FolderStatus>)
    ensures r.None? <==> forall k :: 0 <= k < |statuses| ==> statuses[k].id != id
    ensures r.Some? ==>
      exists k :: 0 <= k < |statuses| && statuses[k] == r.value && r.value.id == id &&
                  (forall j :: 0 <= j < k ==> statuses[j].id != id)
  {
    if statuses == [] then None
    else if statuses[0].id == id then Some(statuses[0])
    else
      var r := FindStatus(statuses[1..], id);
      assert forall k :: 0 < k < |statuses| ==> statuses[k] == statuses[1..][k - 1];
      r
  }

  /** The row of one category: its status if one carries its id, otherwise
      pending and awaiting a scan. */
  function RowFor(config: FolderConfig, statuses: seq<FolderStatus>): TableRow {
    match FindStatus(statuses, config.id)
    case Some(s) => TableRow(config, s.status, s.message, s.foundFileDetails)
    case None => TableRow(config, Pending, AwaitingScanMessage, map[])
  }

  /** `tableData`: one row per category, in category order. */
  function TableData(configs: seq<FolderConfig>, statuses: seq<FolderStatus>): (rows: seq<TableRow>)
    ensures |rows| == |configs|
    ensures forall k :: 0 <= k < |configs| ==> rows[k] == RowFor(configs[k], statuses)
  {
    seq(|configs|, k requires 0 <= k < |configs| => RowFor(configs[k], statuses))
  }

  /** The results `validateFolders` gives, seen through the table: when no
      two categories share an id, each row shows its own category's result. */
  lemma TableShowsResults(configs: seq<FolderConfig>, statuses: seq<FolderStatus>)
    requires |statuses| == |configs|
    requires forall k :: 0 <= k < |configs| ==> statuses[k].id == configs[k].id
    requires forall i, j :: 0 <= i < j < |configs| ==> configs[i].id != configs[j].id
    ensures forall k :: 0 <= k < |configs| ==>
      var row := TableData(configs, statuses)[k];
      row.config == configs[k] && row.status == statuses[k].status && row.message == statuses[k].message &&
      row.foundFileDetails == statuses[k].foundFileDetails
  {
    forall k | 0 <= k < |configs| ensures FindStatus(statuses, configs[k].id) == Some(statuses[k]) {
      var r := FindStatus(statuses, configs[k].id);
      var m :| 0 <= m < |statuses| && statuses[m] == r.value && r.value.id == configs[k].id &&
        forall j :: 0 <= j < m ==> statuses[j].id != configs[k].id;
      assert m == k;
    }
  }

  /** With no results at all every row is pending and awaiting a scan. */
  lemma TableWithoutResults(configs: seq<FolderConfig>)
    ensures forall k :: 0 <= k < |configs| ==>
      TableData(configs, [])[k] == TableRow(configs[k], Pending, AwaitingScanMessage, map[])
  {
  }

  /** The placeholder results the page shows before a scan. */
  function Placeholders(configs: seq<FolderConfig>, message: string): (statuses: seq<FolderStatus>)
    ensures |statuses| == |configs|
    ensures forall k :: 0 <= k < |configs| ==>
      statuses[k] == FolderStatus(configs[k].id, Pending, message, map[])
  {
    seq(|configs|, k requires 0 <= k < |configs| => FolderStatus(configs[k].id, Pending, message, map[]))
  }

  /** Placeholders show as pending rows with their message, shared ids or not. */
  lemma TableOfPlaceholders(configs: seq<FolderConfig>, message: string)
    ensures forall k :: 0 <= k < |configs| ==>
      TableData(configs, Placeholders(configs, message))[k] == TableRow(configs[k], Pending, message, map[])
  {
    var statuses := Placeholders(configs, message);
    forall k | 0 <= k < |configs|
      ensures FindStatus(statuses, configs[k].id).Some?
      ensures FindStatus(statuses, configs[k].id).value == FolderStatus(configs[k].id, Pending, message, map[])
    {
      assert statuses[k].id == configs[k].id;
    }
  }

  // ---------------------------------------------------------------------
  // The page state.

  /** What `handleFileChange` does with a selection. */
  datatype Upload = NoFiles | Rejected | Accepted

  function Paths(files: seq<FileRecord>): (paths: seq<string>)
    ensures |paths| == |files|
    ensures forall i :: 0 <= i < |files| ==> paths[i] == files[i].relativePath
  {
    seq(|files|, i requires 0 <= i < |files| => files[i].relativePath)
  }

  /** The outcome of a selection, from its first file only. */
  function UploadOutcome(files: seq<FileRecord>): Upload {
    if files == [] then NoFiles
    else if IsTransferRoot(FirstSegment(files[0].relativePath)) then Accepted
    else Rejected
  }

  /** The state cells of the validator page. */
  class FinderPage {
    const configs: seq<FolderConfig>
    var statuses: seq<FolderStatus>
    var hasUploaded: bool
    var allFiles: seq<FileRecord>
    var years: seq<string>
    var datesByYear: map<string, seq<string>>
    var selectedYear: string
    var selectedDate: string

    constructor (configs: seq<FolderConfig>)
      ensures this.configs == configs
      ensures statuses == Placeholders(configs, AwaitingUploadMessage)
      ensures !hasUploaded && allFiles == [] && years == [] && datesByYear == map[]
      ensures selectedYear == "" && selectedDate == ""
    {
      this.configs := configs;
      statuses := Placeholders(configs, AwaitingUploadMessage);
      hasUploaded := false;
      allFiles := [];
      years := [];
      datesByYear := map[];
      selectedYear := "";
      selectedDate := "";
    }

    /** `handleFileChange` on a selection of files: nothing happens for an
        empty selection or a folder whose first path does not start with a
        year-transfer folder; otherwise the page resets and lists the
        upload's facets. */
    method HandleFileChange(files: seq<FileRecord>) returns (outcome: Upload)
      modifies this
      ensures outcome == UploadOutcome(files)
      ensures outcome != Accepted ==>
        && statuses == old(statuses) && hasUploaded == old(hasUploaded) && allFiles == old(allFiles)
        && years == old(years) && datesByYear == old(datesByYear)
        && selectedYear == old(selectedYear) && selectedDate == old(selectedDate)
      ensures outcome == Accepted ==>
        && statuses == Placeholders(configs, AwaitingSelectionMessage)
        && hasUploaded && allFiles == files
        && selectedYear == "" && selectedDate == ""
        && FacetsOf(Paths(files), years, datesByYear)
      ensures outcome != Accepted ==> Table() == old(Table())
      ensures outcome == Accepted ==> |Table()| == |configs|
      ensures outcome == Accepted ==>
        forall k :: 0 <= k < |configs| ==> Table()[k] == TableRow(configs[k], Pending, AwaitingSelectionMessage, map[])
    {
      if files == [] {
        return NoFiles;
      }
      var firstPath := files[0].relativePath;
      var pathPartsCheck := Split(firstPath, '/');
      if !IsTransferRoot(pathPartsCheck[0]) {
        return Rejected;
      }
      statuses := Placeholders(configs, AwaitingSelectionMessage);
      selectedYear := "";
      selectedDate := "";
      datesByYear := map[];
      allFiles := files;
      hasUploaded := true;
      years, datesByYear := ExtractFacets(Paths(files));
      UploadResetsTable(configs);
      outcome := Accepted;
    }

    /** The table the page renders from its current results. */
    function Table(): seq<TableRow>
      reads this
    {
      TableData(configs, statuses)
    }
  }

  /** After an accepted upload every row is pending and awaiting a selection. */
  lemma UploadResetsTable(configs: seq<FolderConfig>)
    ensures forall k :: 0 <= k < |configs| ==>
      TableData(configs, Placeholders(configs, AwaitingSelectionMessage))[k] ==
        TableRow(configs[k], Pending, AwaitingSelectionMessage, map[])
  {
    TableOfPlaceholders(configs, AwaitingSelectionMessage);
  }
}
