/**
 * The batch file-extension changer page
 * (apps/utils/app/file-extension-changer/page.tsx): scanning the files of a
 * picked folder into records, planning which records get the new extension,
 * the preview/ready mode switch, folding the rename endpoint's results back
 * into the records, and the scripts offered for download.
 */
module ExtensionChanger {
  import opened Wrappers
  import opened JsString
  import RenameApi
  import RenameScripts

  /** A file handed over by the folder picker: its name and its path relative to the picked folder's parent. */
  datatype SelectedFile = SelectedFile(name: string, relativePath: string)

  /** One row of the page's file list. */
  datatype FileInfo = FileInfo(name: string, oldExtension: string, newExtension: string, path: string)

  /** A file name cut at its last dot. */
  datatype NameParts = NameParts(base: string, ext: string)

  // ---------------------------------------------------------------------
  // Scanning
  // ---------------------------------------------------------------------

  /**
   * Cuts a name at its last dot; a name without a dot, or whose last dot is
   * its first character (a hidden file), has no extension.
   */
  function SplitName(fileName: string): NameParts {
    var k := LastIndexOf(fileName, '.');
    if k > 0 then NameParts(fileName[..k], fileName[k + 1..]) else NameParts(fileName, "")
  }

  /** The base and the extension put back together give the name; the extension never holds a dot. */
  lemma SplitNameParts(fileName: string)
    ensures var parts := SplitName(fileName);
            && '.' !in parts.ext
            && ((exists j :: 0 < j < |fileName| && fileName[j] == '.') ==> parts.base + "." + parts.ext == fileName)
            && ((forall j :: 0 < j < |fileName| ==> fileName[j] != '.') ==> parts.base == fileName && parts.ext == "")
  {
    var k := LastIndexOf(fileName, '.');
    if k > 0 {
      assert fileName[..k] + "." + fileName[k + 1..] == fileName;
      var ext := fileName[k + 1..];
      forall m | 0 <= m < |ext| ensures ext[m] != '.' {
        assert ext[m] == fileName[k + 1 + m];
      }
    }
  }

  /** The record built for one picked file. */
  function ScanFile(f: SelectedFile): FileInfo {
    var ext := SplitName(f.name).ext;
    FileInfo(f.name, ext, ext, f.relativePath)
  }

  /** The loop that builds one record per picked file, in order. */
  method ScanFiles(selected: seq<SelectedFile>) returns (infos: seq<FileInfo>)
    ensures |infos| == |selected|
    ensures forall i :: 0 <= i < |selected| ==>
              && infos[i].name == selected[i].name
              && infos[i].path == selected[i].relativePath
              && infos[i].oldExtension == SplitName(selected[i].name).ext
              && infos[i].newExtension == infos[i].oldExtension
  {
    infos := [];
    var i := 0;
    while i < |selected|
      invariant 0 <= i <= |selected|
      invariant |infos| == i
      invariant forall k :: 0 <= k < i ==> infos[k] == ScanFile(selected[k])
    {
      infos := infos + [ScanFile(selected[i])];
      i := i + 1;
    }
  }

  /** The picked folder's name: the first `/`-separated segment of a relative path. */
  function FolderName(relativePath: string): string {
    Split(relativePath, '/')[0]
  }

  /** The folder name is the part of the path before its first `/` (all of it when there is none). */
  lemma FolderNameIsFirstSegment(relativePath: string)
    ensures var folder := FolderName(relativePath);
            && '/' !in folder
            && |folder| <= |relativePath| && relativePath[..|folder|] == folder
            && (|folder| < |relativePath| ==> relativePath[|folder|] == '/')
  {
    SplitFirstPiece(relativePath, '/');
  }

  // ---------------------------------------------------------------------
  // Planning
  // ---------------------------------------------------------------------

  /** The plan for one record: the new extension where the old one matches exactly, else its own. */
  function PlanRecord(f: FileInfo, oldExt: string, newExt: string): FileInfo {
    f.(newExtension := if f.oldExtension == oldExt then newExt else f.oldExtension)
  }

  /** `files.map(...)` in `updateFileExtensions`. */
  function Plan(files: seq<FileInfo>, oldExt: string, newExt: string): seq<FileInfo> {
    seq(|files|, i requires 0 <= i < |files| => PlanRecord(files[i], oldExt, newExt))
  }

  /** The file list marks a row as changing when its two extensions differ. */
  predicate ShownAsChanged(f: FileInfo) {
    f.oldExtension != f.newExtension
  }

  /**
   * A plan keeps every record's name, path and old extension, in order, and
   * replaces any earlier plan: planning twice is planning once with the
   * second pair of extensions.
   */
  lemma PlanOverridesEarlierPlan(files: seq<FileInfo>, o1: string, n1: string, o2: string, n2: string)
    ensures |Plan(Plan(files, o1, n1), o2, n2)| == |files|
    ensures Plan(Plan(files, o1, n1), o2, n2) == Plan(files, o2, n2)
  {
  }

  /** Hence planning is idempotent. */
  lemma PlanIdempotent(files: seq<FileInfo>, oldExt: string, newExt: string)
    ensures Plan(Plan(files, oldExt, newExt), oldExt, newExt) == Plan(files, oldExt, newExt)
  {
    PlanOverridesEarlierPlan(files, oldExt, newExt, oldExt, newExt);
  }

  /**
   * After a plan, a record whose extension matched has the new extension
   * and any other keeps its own; so exactly the matching records are shown
   * as changing, and only when the new extension differs from the old one.
   */
  lemma PlanShownAsChanged(files: seq<FileInfo>, oldExt: string, newExt: string)
    ensures var planned := Plan(files, oldExt, newExt);
            && |planned| == |files|
            && forall i :: 0 <= i < |files| ==>
                 && planned[i].name == files[i].name
                 && planned[i].path == files[i].path
                 && planned[i].oldExtension == files[i].oldExtension
                 && (files[i].oldExtension == oldExt ==> planned[i].newExtension == newExt)
                 && (files[i].oldExtension != oldExt ==> planned[i].newExtension == files[i].oldExtension)
                 && (ShownAsChanged(planned[i]) <==> files[i].oldExtension == oldExt && newExt != oldExt)
  {
  }

  // ---------------------------------------------------------------------
  // Folding the endpoint's results back into the records
  // ---------------------------------------------------------------------

  /** `results.find(r => r.oldName === name)`. */
  function FindResult(results: seq<RenameApi.RenameResult>, name: string): (r: Option<RenameApi.RenameResult>)
    ensures r.None? <==> forall k :: 0 <= k < |results| ==> results[k].oldName != name
    ensures r.Some? ==> exists k :: 0 <= k < |results| && results[k] == r.value && r.value.oldName == name
                          && forall j :: 0 <= j < k ==> results[j].oldName != name
    decreases |results|
  {
    if |results| == 0 then None
    else if results[0].oldName == name then Some(results[0])
    else
      var r := FindResult(results[1..], name);
      if r.Some? then
        ghost var k :| 0 <= k < |results[1..]| && results[1..][k] == r.value && r.value.oldName == name
                       && forall j :: 0 <= j < k ==> results[1..][j].oldName != name;
        assert results[k + 1] == r.value;
        r
      else r
  }

  /** What the merge does to one record. */
  function MergeRecord(f: FileInfo, oldExt: string, newExt: string, results: seq<RenameApi.RenameResult>): FileInfo {
    if f.oldExtension == oldExt then
      match FindResult(results, f.name)
      case Some(r) =>
        if r.success then f.(name := r.newName, oldExtension := newExt, newExtension := newExt) else f
      case None => f
    else f
  }

  /** `files.map(...)` over a successful response in `processFiles`. */
  function Merge(files: seq<FileInfo>, oldExt: string, newExt: string, results: seq<RenameApi.RenameResult>): seq<FileInfo> {
    seq(|files|, i requires 0 <= i < |files| => MergeRecord(files[i], oldExt, newExt, results))
  }

  /**
   * The merge keeps the list's length. A record is looked up by the first
   * result under its name: when its extension matched and that result
   * succeeded, it takes the result's new name and the new extension twice;
   * otherwise, and when no result carries its name, it stays as it was.
   */
  lemma MergeChangesOnlyRenamedRecords(files: seq<FileInfo>, oldExt: string, newExt: string, results: seq<RenameApi.RenameResult>)
    ensures |Merge(files, oldExt, newExt, results)| == |files|
    ensures forall i, k ::
              (&& 0 <= i < |files| && 0 <= k < |results|
               && results[k].oldName == files[i].name
               && (forall j :: 0 <= j < k ==> results[j].oldName != files[i].name)) ==>
                Merge(files, oldExt, newExt, results)[i]
                  == if files[i].oldExtension == oldExt && results[k].success
                     then FileInfo(results[k].newName, newExt, newExt, files[i].path)
                     else files[i]
    ensures forall i :: 0 <= i < |files| && (forall k :: 0 <= k < |results| ==> results[k].oldName != files[i].name) ==>
              Merge(files, oldExt, newExt, results)[i] == files[i]
  {
    var merged := Merge(files, oldExt, newExt, results);
    forall i, k | 0 <= i < |files| && 0 <= k < |results|
      && results[k].oldName == files[i].name
      && (forall j :: 0 <= j < k ==> results[j].oldName != files[i].name)
      ensures FindResult(results, files[i].name) == Some(results[k])
    {
      var found := FindResult(results, files[i].name);
      var m :| 0 <= m < |results| && results[m] == found.value && found.value.oldName == files[i].name
               && forall j :: 0 <= j < m ==> results[j].oldName != files[i].name;
    }
  }

  /** The records `processFiles` sends: those whose extension matches, as JSON objects. */
  function SentEntries(files: seq<FileInfo>, oldExt: string): seq<RenameApi.FileEntry>
    decreases |files|
  {
    if |files| == 0 then []
    else
      var f := files[|files| - 1];
      SentEntries(files[..|files| - 1], oldExt)
        + (if f.oldExtension == oldExt then [RenameApi.Entry(RenameApi.Text(f.name), Some(f.oldExtension))] else [])
  }

  /** One record is sent exactly when its extension matches, as an object with its name and extension. */
  lemma SentEntriesOfOne(f: FileInfo, oldExt: string)
    ensures SentEntries([f], oldExt)
            == if f.oldExtension == oldExt then [RenameApi.Entry(RenameApi.Text(f.name), Some(oldExt))] else []
  {
    assert [f][..0] == [];
  }

  /** The records are sent in order: the entries of a concatenation are those of each part, one after the other. */
  lemma {:induction false} SentEntriesAppend(a: seq<FileInfo>, b: seq<FileInfo>, oldExt: string)
    ensures SentEntries(a + b, oldExt) == SentEntries(a, oldExt) + SentEntries(b, oldExt)
    decreases |b|
  {
    if |b| == 0 {
      assert a + b == a;
    } else {
      var init := b[..|b| - 1];
      SentEntriesAppend(a, init, oldExt);
      assert (a + b)[..|a + b| - 1] == a + init;
      assert (a + b)[|a + b| - 1] == b[|b| - 1];
    }
  }

  /** Every sent entry is a matching object with a string name, and every matching record is sent. */
  lemma {:induction false} SentEntriesMatch(files: seq<FileInfo>, oldExt: string)
    ensures forall j :: 0 <= j < |SentEntries(files, oldExt)| ==>
              SentEntries(files, oldExt)[j].Entry? && SentEntries(files, oldExt)[j].name.Text?
              && SentEntries(files, oldExt)[j].oldExtension == Some(oldExt)
    ensures forall i :: 0 <= i < |files| && files[i].oldExtension == oldExt ==>
              RenameApi.Entry(RenameApi.Text(files[i].name), Some(oldExt)) in SentEntries(files, oldExt)
    decreases |files|
  {
    if |files| > 0 {
      var init := files[..|files| - 1];
      SentEntriesMatch(init, oldExt);
      forall i | 0 <= i < |init| ensures files[i] == init[i] { }
    }
  }

  /** The body `processFiles` posts. */
  function RequestFor(files: seq<FileInfo>, oldExt: string, newExt: string): RenameApi.Request {
    RenameApi.Request(Some(oldExt), Some(newExt), Some(SentEntries(files, oldExt)))
  }

  /**
   * Posting the matching records to the endpoint and merging its answer
   * renames every matching record to `name.replace(".old", ".new")` with the
   * new extension, and leaves the other records as they were.
   */
  lemma MergeOfSimulatedRenames(files: seq<FileInfo>, oldExt: string, newExt: string)
    requires oldExt != "" && newExt != ""
    ensures var reply := RenameApi.PostSpec(Some(RequestFor(files, oldExt, newExt)));
            && reply.Succeeded? && reply.errors == []
            && var merged := Merge(files, oldExt, newExt, reply.results);
               && |merged| == |files|
               && forall i :: 0 <= i < |files| ==>
                    merged[i] == if files[i].oldExtension == oldExt
                                 then FileInfo(RenameApi.NewName(files[i].name, oldExt, newExt), newExt, newExt, files[i].path)
                                 else files[i]
  {
    var entries := SentEntries(files, oldExt);
    SentEntriesMatch(files, oldExt);
    RenameApi.NoErrorsForStringNames(entries, oldExt);
    RenameApi.ResultsAreMatchingRecords(entries, oldExt, newExt);
    RenameApi.MatchingRecordsHaveResults(entries, oldExt, newExt);
    var results := RenameApi.ResultsOf(entries, oldExt, newExt);
    forall i | 0 <= i < |files| && files[i].oldExtension == oldExt
      ensures MergeRecord(files[i], oldExt, newExt, results)
           == FileInfo(RenameApi.NewName(files[i].name, oldExt, newExt), newExt, newExt, files[i].path)
    {
      var e := RenameApi.Entry(RenameApi.Text(files[i].name), Some(oldExt));
      var j :| 0 <= j < |entries| && entries[j] == e;
      assert RenameApi.Matches(entries[j], oldExt);
      var expected := RenameApi.RenameResult(files[i].name, RenameApi.NewName(files[i].name, oldExt, newExt), true);
      assert expected in results;
      var found := FindResult(results, files[i].name);
      assert found.Some?;
    }
  }

  // ---------------------------------------------------------------------
  // The page's state
  // ---------------------------------------------------------------------

  /** The component's state fields and the handlers that reassign them. */
  class Page {
    var selectedFolder: string
    var oldExtension: string
    var newExtension: string
    var files: seq<FileInfo>
    var previewMode: bool

    /** The page leaves preview mode only when it has files, and only a reset empties the list. */
    ghost predicate Valid()
      reads this
    {
      previewMode || |files| > 0
    }

    /** The initial state. */
    constructor ()
      ensures Valid()
      ensures selectedFolder == "" && oldExtension == "" && newExtension == ""
      ensures files == [] && previewMode
    {
      selectedFolder, oldExtension, newExtension := "", "", "";
      files := [];
      previewMode := true;
    }

    /** `handleFolderSelect`: an empty pick changes nothing; otherwise folder and list are replaced. */
    method HandleFolderSelect(selected: seq<SelectedFile>)
      requires Valid()
      modifies this
      ensures Valid()
      ensures |selected| == 0 ==> unchanged(this)
      ensures |selected| > 0 ==>
                && selectedFolder == FolderName(selected[0].relativePath)
                && |files| == |selected|
                && (forall i :: 0 <= i < |selected| ==> files[i] == ScanFile(selected[i]))
                && oldExtension == old(oldExtension) && newExtension == old(newExtension)
                && previewMode == old(previewMode)
    {
      if |selected| > 0 {
        selectedFolder := FolderName(selected[0].relativePath);
        var scanned := ScanFiles(selected);
        files := scanned;
      }
    }

    /** The old-extension input's `onChange`. */
    method SetOldExtension(value: string)
      requires Valid()
      modifies this
      ensures Valid()
      ensures oldExtension == value
      ensures selectedFolder == old(selectedFolder) && newExtension == old(newExtension)
      ensures files == old(files) && previewMode == old(previewMode)
    {
      oldExtension := value;
    }

    /** The new-extension input's `onChange`. */
    method SetNewExtension(value: string)
      requires Valid()
      modifies this
      ensures Valid()
      ensures newExtension == value
      ensures selectedFolder == old(selectedFolder) && oldExtension == old(oldExtension)
      ensures files == old(files) && previewMode == old(previewMode)
    {
      newExtension := value;
    }

    /** `updateFileExtensions`: refused while either extension is empty, else the list is re-planned. */
    method UpdateFileExtensions()
      requires Valid()
      modifies this
      ensures Valid()
      ensures old(oldExtension) == "" || old(newExtension) == "" ==> unchanged(this)
      ensures old(oldExtension) != "" && old(newExtension) != "" ==>
                && files == Plan(old(files), oldExtension, newExtension)
                && selectedFolder == old(selectedFolder)
                && oldExtension == old(oldExtension) && newExtension == old(newExtension)
                && previewMode == old(previewMode)
    {
      if oldExtension == "" || newExtension == "" {
        return;
      }
      files := Plan(files, oldExtension, newExtension);
    }

    /**
     * `processFiles`. With no files nothing happens. In preview mode the
     * only effect is to leave preview mode. Otherwise the matching records
     * are posted and `reply` is what came back (`None`: the request or its
     * decoding threw); only a successful reply is merged into the list.
     */
    method ProcessFiles(reply: Option<RenameApi.Response>)
      requires Valid()
      modifies this
      ensures Valid()
      ensures |old(files)| == 0 ==> unchanged(this)
      ensures |old(files)| > 0 ==>
                && !previewMode
                && selectedFolder == old(selectedFolder)
                && oldExtension == old(oldExtension) && newExtension == old(newExtension)
      ensures |old(files)| > 0 && old(previewMode) ==> files == old(files)
      ensures |old(files)| > 0 && !old(previewMode) ==>
                files == if reply.Some? && reply.value.Succeeded?
                         then Merge(old(files), oldExtension, newExtension, reply.value.results)
                         else old(files)
    {
      if |files| == 0 {
        return;
      }
      if previewMode {
        previewMode := false;
      } else if reply.Some? && reply.value.Succeeded? {
        files := Merge(files, oldExtension, newExtension, reply.value.results);
      }
    }

    /** The body `processFiles` posts in ready mode. */
    function Request(): RenameApi.Request
      reads this
    {
      RequestFor(files, oldExtension, newExtension)
    }

    /**
     * `downloadScript`: the three files with the current extensions written
     * into their templates; only the batch file carries a byte order mark.
     */
    method DownloadScript() returns (downloads: seq<RenameScripts.Download>)
      ensures downloads == RenameScripts.Downloads(oldExtension, newExtension)
      ensures RenameScripts.MarksOnlyBatch(downloads,
                RenameScripts.BatchScript(oldExtension, newExtension),
                RenameScripts.ShellScript(oldExtension, newExtension),
                RenameScripts.PowerShellScript(oldExtension, newExtension))
    {
      downloads := RenameScripts.Downloads(oldExtension, newExtension);
      RenameScripts.OnlyBatchDownloadHasByteOrderMark(oldExtension, newExtension);
    }

    /** `resetFiles`: back to the initial state, the only way back into preview mode. */
    method ResetFiles()
      modifies this
      ensures Valid()
      ensures files == [] && selectedFolder == "" && oldExtension == "" && newExtension == ""
      ensures previewMode
    {
      files := [];
      selectedFolder, oldExtension, newExtension := "", "", "";
      previewMode := true;
    }
  }

  /**
   * Once the page has left preview mode, processing again with the
   * endpoint's real answer renames every matching record.
   */
  method ProcessTwice(page: Page)
    requires page.Valid() && |page.files| > 0 && page.oldExtension != "" && page.newExtension != ""
    modifies page
    ensures page.Valid() && !page.previewMode
    ensures |page.files| == |old(page.files)|
    ensures forall i :: 0 <= i < |page.files| ==>
              page.files[i] == if old(page.files)[i].oldExtension == page.oldExtension
                               then FileInfo(RenameApi.NewName(old(page.files)[i].name, page.oldExtension, page.newExtension),
                                             page.newExtension, page.newExtension, old(page.files)[i].path)
                               else old(page.files)[i]
  {
    page.ProcessFiles(None);
    var reply := RenameApi.Post(Some(page.Request()));
    MergeOfSimulatedRenames(page.files, page.oldExtension, page.newExtension);
    page.ProcessFiles(Some(reply));
  }
}
