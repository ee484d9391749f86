/** `FilenameFormatterNode`: renames every visible file of a folder to its
    cleaned, optionally prefixed and time-stamped name, made unique within its
    directory. The file system appears as the set of paths that exist; the
    listing of the folder, each file's formatted modification time and whether
    the operating system accepts each rename are inputs. */
module FilenameFormatter {
  import opened Wrappers
  import opened FilenameCleaning
  import opened Listing

  /** A file: the directory holding it and its name there. */
  datatype FilePath = FilePath(dir: string, name: string)

  /** One listed file. `modified` is its modification time formatted as
      `%Y%m%d_%H%M%S`, absent when reading it fails; `renameSucceeds` is
      whether the operating system would accept renaming it. */
  datatype FileEntry = FileEntry(dir: string, name: string, modified: Option<string>, renameSucceeds: bool)

  /** What the folder path names. */
  datatype Folder = Absent | RegularFile | Directory

  datatype DirectoryError = DoesNotExist | NotADirectory

  /** One planned rename, inside `dir`. */
  datatype Rename = Rename(dir: string, oldName: string, newName: string)

  datatype FormatOptions = FormatOptions(
    prefix: string,
    useTimestamp: bool,
    useChineseConversion: bool,
    hasPypinyin: bool,
    dryRun: bool,
    info: UnicodeInfo)

  /** At most this many renames are listed in the result message. */
  const DisplayLimit: nat := 20

  /** The counts and listing of the result message. `renamed` is present
      only outside a dry run; `pinyinMissing` adds the note that Chinese
      characters were removed rather than converted. */
  datatype FormatReport = FormatReport(
    dryRun: bool,
    planned: nat,
    renamed: Option<nat>,
    errors: nat,
    details: Listed<Rename>,
    pinyinMissing: bool)

  datatype FormatReply = Formatted(report: FormatReport) | FormatFailed(error: DirectoryError)

  predicate Hidden(name: string)
  {
    |name| > 0 && name[0] == '.'
  }

  /** The names that exist in a directory. */
  function NamesIn(files: set<FilePath>, dir: string): set<string>
  {
    set p | p in files && p.dir == dir :: p.name
  }

  /** The names `os.path.exists(os.path.join(dir, name))` accepts: the
      directory's entries, and "", "." and "..", which name the directory
      itself or its parent. Names are compared exactly. */
  function ExistingNames(files: set<FilePath>, dir: string): (r: set<string>)
    ensures forall name :: name in r <==> name in NamesIn(files, dir) || name in {"", ".", ".."}
  {
    NamesIn(files, dir) + {"", ".", ".."}
  }

  /** `get_unique_filename`: tries the desired name, then the numbered
      candidates, stopping after the 9999th. */
  method GetUniqueFilename(existing: set<string>, desiredName: string) returns (finalName: string)
    ensures finalName == UniqueName(existing, desiredName)
  {
    var (namePart, ext) := SplitExt(desiredName);
    var counter := 1;
    finalName := desiredName;
    while finalName in existing
      invariant 1 <= counter <= MaxCounter
      invariant counter == 1 ==> finalName == desiredName
      invariant counter > 1 ==>
        && desiredName in existing
        && finalName == Candidate(namePart, ext, counter - 1)
        && FirstFree(existing, namePart, ext, 1) == FirstFree(existing, namePart, ext, counter - 1)
      decreases MaxCounter - counter
    {
      ghost var previous := counter;
      finalName := namePart + "_" + Pad3(counter) + ext;
      assert finalName == Candidate(namePart, ext, previous);
      assert previous > 1 ==> FirstFree(existing, namePart, ext, previous - 1) == FirstFree(existing, namePart, ext, previous);
      counter := counter + 1;
      if counter > MaxCounter {
        break;
      }
    }
  }

  /** The name a visible file with a readable modification time is given. */
  function TargetName(entry: FileEntry, timestamp: string, files: set<FilePath>, options: FormatOptions): string
  {
    var cleaned := CleanFilename(entry.name, options.useChineseConversion, options.hasPypinyin, options.info);
    var stamped := TimestampFilename(cleaned, options.prefix, options.useTimestamp, timestamp);
    UniqueName(ExistingNames(files, entry.dir), stamped)
  }

  /** The state a directory walk carries: the renames recorded, the renames
      carried out, the errors counted, and the files that exist. */
  datatype Progress = Progress(operations: seq<Rename>, processed: nat, errors: nat, files: set<FilePath>)

  /** One file of the walk. Hidden files are skipped; a file whose
      modification time cannot be read is an error; a file that keeps its
      name is left alone; otherwise the rename is recorded and, outside a dry
      run, carried out or counted as an error. */
  function Visit(progress: Progress, entry: FileEntry, options: FormatOptions): Progress
  {
    if Hidden(entry.name) then progress
    else if entry.modified.None? then progress.(errors := progress.errors + 1)
    else
      var finalName := TargetName(entry, entry.modified.value, progress.files, options);
      if finalName == entry.name then progress
      else
        var operations := progress.operations + [Rename(entry.dir, entry.name, finalName)];
        if options.dryRun then progress.(operations := operations)
        else if !entry.renameSucceeds then progress.(operations := operations, errors := progress.errors + 1)
        else progress.(
          operations := operations,
          processed := progress.processed + 1,
          files := progress.files - {FilePath(entry.dir, entry.name)} + {FilePath(entry.dir, finalName)})
  }

  /** The walk over the listed files, in order. */
  function Walk(entries: seq<FileEntry>, start: Progress, options: FormatOptions): Progress
  {
    if |entries| == 0 then start
    else Visit(Walk(entries[..|entries| - 1], start, options), entries[|entries| - 1], options)
  }

  /** The walk only appends renames, at most one per file; it carries out
      at most the renames it records, and each file adds at most one to the
      renamed and error counts together. */
  lemma {:induction false} WalkCounts(entries: seq<FileEntry>, start: Progress, options: FormatOptions)
    ensures var p := Walk(entries, start, options);
      && start.operations <= p.operations
      && |p.operations| <= |start.operations| + |entries|
      && start.processed <= p.processed && start.errors <= p.errors
      && p.processed - start.processed <= |p.operations| - |start.operations|
      && (p.processed - start.processed) + (p.errors - start.errors) <= |entries|
  {
    if |entries| > 0 {
      WalkCounts(entries[..|entries| - 1], start, options);
    }
  }

  /** The number of visible listed files whose modification time cannot be
      read. */
  function UnreadableCount(entries: seq<FileEntry>): nat
  {
    if |entries| == 0 then 0
    else
      var last := entries[|entries| - 1];
      UnreadableCount(entries[..|entries| - 1]) + (if !Hidden(last.name) && last.modified.None? then 1 else 0)
  }

  /** The counts exactly: a dry run counts one error per unreadable visible
      file and nothing else; otherwise each recorded rename is either carried
      out or counted as an error, on top of the unreadable files. */
  lemma {:induction false} WalkCountsExactly(entries: seq<FileEntry>, start: Progress, options: FormatOptions)
    ensures var p := Walk(entries, start, options);
      options.dryRun ==> p.errors == start.errors + UnreadableCount(entries)
    ensures var p := Walk(entries, start, options);
      !options.dryRun ==>
        p.processed + p.errors
        == start.processed + start.errors + UnreadableCount(entries) + (|p.operations| - |start.operations|)
  {
    if |entries| > 0 {
      WalkCountsExactly(entries[..|entries| - 1], start, options);
    }
  }

  /** A visit records nothing, or one rename of its own visible file that
      changes its name. */
  lemma VisitRecordsItsOwnFile(progress: Progress, entry: FileEntry, options: FormatOptions)
    returns (added: bool, rename: Rename)
    ensures Visit(progress, entry, options).operations == progress.operations + (if added then [rename] else [])
    ensures added ==> && !Hidden(entry.name) && rename.dir == entry.dir
                      && rename.oldName == entry.name && rename.newName != entry.name
  {
    var v := Visit(progress, entry, options);
    added := v.operations != progress.operations;
    if added {
      rename := v.operations[|progress.operations|];
    } else {
      rename := Rename(entry.dir, entry.name, []);
      assert progress.operations + [] == progress.operations;
    }
  }

  /** The renames from index `from` on each change the name of a visible
      file listed in `entries`, in its own directory. */
  predicate RenamesVisibleFiles(operations: seq<Rename>, from: nat, entries: seq<FileEntry>)
  {
    forall k :: from <= k < |operations| ==>
      && operations[k].oldName != operations[k].newName
      && exists j :: (0 <= j < |entries| && !Hidden(entries[j].name)
           && entries[j].dir == operations[k].dir && entries[j].name == operations[k].oldName)
  }

  /** One more listed file keeps the property of the renames so far. */
  lemma RenamesVisibleFilesExtend(entries: seq<FileEntry>, from: nat, operations: seq<Rename>)
    requires |entries| > 0
    requires RenamesVisibleFiles(operations, from, entries[..|entries| - 1])
    ensures RenamesVisibleFiles(operations, from, entries)
  {
    var before := entries[..|entries| - 1];
    forall k | from <= k < |operations|
      ensures operations[k].oldName != operations[k].newName
      ensures exists j :: (0 <= j < |entries| && !Hidden(entries[j].name)
           && entries[j].dir == operations[k].dir && entries[j].name == operations[k].oldName)
    {
      assert operations[k].oldName != operations[k].newName;
      var j :| 0 <= j < |before| && !Hidden(before[j].name)
         && before[j].dir == operations[k].dir && before[j].name == operations[k].oldName;
      assert entries[j] == before[j];
    }
  }

  /** A rename of the one more listed file, visible and renamed to another
      name, keeps the property. */
  lemma RenamesVisibleFilesStep(entries: seq<FileEntry>, from: nat, operations: seq<Rename>, rename: Rename)
    requires |entries| > 0
    requires RenamesVisibleFiles(operations, from, entries[..|entries| - 1])
    requires !Hidden(entries[|entries| - 1].name) && rename.dir == entries[|entries| - 1].dir
    requires rename.oldName == entries[|entries| - 1].name && rename.newName != rename.oldName
    ensures RenamesVisibleFiles(operations + [rename], from, entries)
  {
    RenamesVisibleFilesExtend(entries, from, operations);
    var after := operations + [rename];
    forall k | from <= k < |after|
      ensures exists j :: (0 <= j < |entries| && !Hidden(entries[j].name)
           && entries[j].dir == after[k].dir && entries[j].name == after[k].oldName)
    {
      if k < |operations| {
        assert after[k] == operations[k];
      } else {
        assert after[k] == rename;
      }
    }
  }

  /** Every recorded rename belongs to a visible listed file, keeps it in
      its directory and changes its name. */
  lemma {:induction false} WalkRenamesVisibleFiles(entries: seq<FileEntry>, start: Progress, options: FormatOptions)
    ensures RenamesVisibleFiles(Walk(entries, start, options).operations, |start.operations|, entries)
  {
    if |entries| > 0 {
      var before := entries[..|entries| - 1];
      WalkRenamesVisibleFiles(before, start, options);
      var q := Walk(before, start, options);
      var added, rename := VisitRecordsItsOwnFile(q, entries[|entries| - 1], options);
      if added {
        RenamesVisibleFilesStep(entries, |start.operations|, q.operations, rename);
      } else {
        assert q.operations + [] == q.operations;
        RenamesVisibleFilesExtend(entries, |start.operations|, q.operations);
      }
    }
  }

  /** A dry run renames nothing: the files stay as they are and no rename is
      counted as carried out. */
  lemma {:induction false} DryRunChangesNoFile(entries: seq<FileEntry>, start: Progress, options: FormatOptions)
    requires options.dryRun
    ensures Walk(entries, start, options).files == start.files
    ensures Walk(entries, start, options).processed == start.processed
  {
    if |entries| > 0 {
      DryRunChangesNoFile(entries[..|entries| - 1], start, options);
    }
  }

  /** A listed file that exists counts as taken under its own name, so it
      keeps that name only when every numbered candidate exists as well; an
      already formatted file is given a numbered name on the next run. */
  lemma KeepsNameOnlyWhenCountersRunOut(entry: FileEntry, timestamp: string, files: set<FilePath>, options: FormatOptions)
    ensures FilePath(entry.dir, entry.name) in files && TargetName(entry, timestamp, files, options) == entry.name ==>
      var cleaned := CleanFilename(entry.name, options.useChineseConversion, options.hasPypinyin, options.info);
      var stamped := TimestampFilename(cleaned, options.prefix, options.useTimestamp, timestamp);
      forall j :: 1 <= j <= MaxCounter ==> Candidate(SplitExt(stamped).0, SplitExt(stamped).1, j) in NamesIn(files, entry.dir)
  {
    var cleaned := CleanFilename(entry.name, options.useChineseConversion, options.hasPypinyin, options.info);
    var stamped := TimestampFilename(cleaned, options.prefix, options.useTimestamp, timestamp);
    KeptNameMeansExhausted(entry.dir, entry.name, files, stamped);
  }

  /** The same for any desired name: an existing file whose unique name is
      its own name has every numbered candidate taken. */
  lemma KeptNameMeansExhausted(dir: string, name: string, files: set<FilePath>, desiredName: string)
    ensures FilePath(dir, name) in files && UniqueName(ExistingNames(files, dir), desiredName) == name ==>
      forall j :: 1 <= j <= MaxCounter ==>
        Candidate(SplitExt(desiredName).0, SplitExt(desiredName).1, j) in NamesIn(files, dir)
  {
    if FilePath(dir, name) in files {
      assert name in NamesIn(files, dir);
    }
    UniqueNameTakenOnlyWhenExhausted(ExistingNames(files, dir), desiredName);
  }

  /** The target is never "", "." or "..": those name the directory itself
      or its parent, so a name cleaned down to one of them is given the
      first free numbered candidate instead ("_001", "._001"). */
  lemma TargetNeverNamesTheDirectory(entry: FileEntry, timestamp: string, files: set<FilePath>, options: FormatOptions)
    ensures TargetName(entry, timestamp, files, options) !in {"", ".", ".."}
    ensures var cleaned := CleanFilename(entry.name, options.useChineseConversion, options.hasPypinyin, options.info);
      var stamped := TimestampFilename(cleaned, options.prefix, options.useTimestamp, timestamp);
      var (namePart, ext) := SplitExt(stamped);
      stamped in {"", "."} && Candidate(namePart, ext, 1) !in NamesIn(files, entry.dir) ==>
        TargetName(entry, timestamp, files, options) == Candidate(namePart, ext, 1)
  {
    var cleaned := CleanFilename(entry.name, options.useChineseConversion, options.hasPypinyin, options.info);
    var stamped := TimestampFilename(cleaned, options.prefix, options.useTimestamp, timestamp);
    UniqueNameAvoidsTheDirectory(NamesIn(files, entry.dir), stamped);
  }

  class FilenameFormatterNode {
    var processedCount: nat
    var errorCount: nat
    var renameMap: seq<Rename>

    constructor()
      ensures processedCount == 0 && errorCount == 0 && renameMap == []
    {
      processedCount := 0;
      errorCount := 0;
      renameMap := [];
    }

    /** `process_directory`: fails on a missing path or a path that is not
        a directory; otherwise walks the listed files, adding to the renamed
        and error counts, and returns the recorded renames and the files that
        exist afterwards. */
    method ProcessDirectory(folder: Folder, entries: seq<FileEntry>, files: set<FilePath>, options: FormatOptions)
      returns (result: Result<seq<Rename>, DirectoryError>, filesAfter: set<FilePath>)
      modifies this`processedCount, this`errorCount
      ensures folder == Absent ==> result == Failure(DoesNotExist)
      ensures folder == RegularFile ==> result == Failure(NotADirectory)
      ensures folder != Directory ==>
        processedCount == old(processedCount) && errorCount == old(errorCount) && filesAfter == files
      ensures folder == Directory ==>
        var p := Walk(entries, Progress([], 0, 0, files), options);
        && result == Success(p.operations)
        && processedCount == old(processedCount) + p.processed
        && errorCount == old(errorCount) + p.errors
        && filesAfter == p.files
    {
      if folder == Absent {
        return Failure(DoesNotExist), files;
      }
      if folder == RegularFile {
        return Failure(NotADirectory), files;
      }
      var operations: seq<Rename> := [];
      filesAfter := files;
      ghost var start := Progress([], 0, 0, files);
      for i := 0 to |entries|
        invariant var p := Walk(entries[..i], start, options);
          && operations == p.operations
          && processedCount == old(processedCount) + p.processed
          && errorCount == old(errorCount) + p.errors
          && filesAfter == p.files
      {
        var entry := entries[i];
        assert entries[..i + 1][..i] == entries[..i];
        if Hidden(entry.name) {
          continue;
        }
        if entry.modified.None? {
          errorCount := errorCount + 1;
          continue;
        }
        var cleaned := CleanFilename(entry.name, options.useChineseConversion, options.hasPypinyin, options.info);
        var stamped := TimestampFilename(cleaned, options.prefix, options.useTimestamp, entry.modified.value);
        var finalName := GetUniqueFilename(ExistingNames(filesAfter, entry.dir), stamped);
        if entry.name != finalName {
          operations := operations + [Rename(entry.dir, entry.name, finalName)];
          if !options.dryRun {
            if entry.renameSucceeds {
              filesAfter := filesAfter - {FilePath(entry.dir, entry.name)} + {FilePath(entry.dir, finalName)};
              processedCount := processedCount + 1;
            } else {
              errorCount := errorCount + 1;
            }
          }
        }
      }
      assert entries[..|entries|] == entries;
      result := Success(operations);
    }

    /** `format_filenames`: resets the counts and the rename map, processes
        the folder and reports the counts, at most 20 renames with the number
        left out, and whether pinyin conversion was asked for but is
        unavailable. A failure is reported as such, with the map left
        empty. */
    method FormatFilenames(folder: Folder, entries: seq<FileEntry>, files: set<FilePath>, options: FormatOptions)
      returns (reply: FormatReply, filesAfter: set<FilePath>)
      modifies this
      ensures folder != Directory ==>
        && reply == FormatFailed(if folder == Absent then DoesNotExist else NotADirectory)
        && processedCount == 0 && errorCount == 0 && renameMap == [] && filesAfter == files
      ensures folder == Directory ==>
        var p := Walk(entries, Progress([], 0, 0, files), options);
        && renameMap == p.operations
        && processedCount == p.processed && errorCount == p.errors
        && filesAfter == p.files
        && reply == Formatted(FormatReport(
             options.dryRun,
             |p.operations|,
             if options.dryRun then None else Some(p.processed),
             p.errors,
             Cap(p.operations, DisplayLimit),
             options.useChineseConversion && !options.hasPypinyin))
    {
      processedCount := 0;
      errorCount := 0;
      renameMap := [];
      var result;
      result, filesAfter := ProcessDirectory(folder, entries, files, options);
      if result.Failure? {
        return FormatFailed(result.error), filesAfter;
      }
      var operations := result.value;
      renameMap := operations;
      var renamed := if options.dryRun then None else Some(processedCount);
      var details := Cap(operations, DisplayLimit);
      reply := Formatted(FormatReport(
        options.dryRun, |operations|, renamed, errorCount, details,
        options.useChineseConversion && !options.hasPypinyin));
    }
  }
}
