/** The records of `src/lib/types.ts`, and the part of a browser `File` the
    validator reads. */
module Types {
  import opened Wrappers

  /** The local hour of a file's modification time, as `Date.getHours()` gives it. */
  type Hour = h: int | 0 <= h <= 23

  /** An uploaded file: its `webkitRelativePath`, its `name`, and the local
      hour at which it was last modified. */
  datatype FileRecord = FileRecord(relativePath: string, name: string, hour: Hour)

  /** A rule: a directory pattern below `year/date`, optional file-name
      keywords, and an optional label recorded when the rule matches. */
  datatype ValidationRule = ValidationRule(
    pathPattern: string,
    fileNameKeywords: Option<seq<string>>,
    category: Option<string>)

  /** A folder category: its id, the file extensions it needs, and its rules. */
  datatype FolderConfig = FolderConfig(id: string, requiredFiles: seq<string>, rules: seq<ValidationRule>)

  datatype Status = Passing | Failing | Pending

  /** The outcome for one category; `foundFileDetails` maps a found
      extension to the labels of the rules that found it. */
  datatype FolderStatus = FolderStatus(
    id: string,
    status: Status,
    message: string,
    foundFileDetails: map<string, seq<string>>)
}
