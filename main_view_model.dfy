/** The main window's state: the helipad list, the filtered list the search
    box selects from it, the bulk toggle over the filtered list, the toggle
    requested from the map, undo, and the refresh that rebuilds the list
    from the helipad CSV and the community folder. */
module MainViewModels {
  import opened Wrappers
  import opened Text
  import opened Disks
  import opened Models
  import opened FileServices
  import opened Scanner
  import opened HelipadViewModels

  // ---------------------------------------------------------------------
  // Search filter
  // ---------------------------------------------------------------------

  /** The filter predicate for the trimmed query `q`: an empty query shows
      everything, otherwise the identifier or the name must contain `q`,
      ignoring case. */
  predicate Shown(icao: string, name: string, q: string) {
    q == [] || ContainsIgnoreCase(icao, q) || ContainsIgnoreCase(name, q)
  }

  /** The views of `vms`, in order, whose record the query `q` shows. */
  function Filter(vms: seq<HelipadViewModel>, q: string): seq<HelipadViewModel>
    reads set vm | vm in vms :: vm.model
  {
    if vms == [] then []
    else
      var last := vms[|vms| - 1];
      Filter(vms[..|vms| - 1], q) + (if Shown(last.model.icao, last.model.name, q) then [last] else [])
  }

  /** The filtered list holds exactly the views whose record the query shows. */
  lemma {:induction false} FilterMembers(vms: seq<HelipadViewModel>, q: string)
    ensures forall vm :: vm in Filter(vms, q) <==> vm in vms && Shown(vm.model.icao, vm.model.name, q)
  {
    if vms != [] {
      var front := vms[..|vms| - 1];
      FilterMembers(front, q);
      assert vms == front + [vms[|vms| - 1]];
    }
  }

  /** The filter keeps list order: filtering a concatenation concatenates
      the filtered parts. */
  lemma {:induction false} FilterAppend(vms: seq<HelipadViewModel>, more: seq<HelipadViewModel>, q: string)
    ensures Filter(vms + more, q) == Filter(vms, q) + Filter(more, q)
    decreases |more|
  {
    if more == [] {
      assert vms + more == vms;
    } else {
      var front := more[..|more| - 1];
      FilterAppend(vms, front, q);
      assert (vms + more)[..|vms + more| - 1] == vms + front;
    }
  }

  /** Views with distinct records filter to views with distinct records,
      each taken from the list. */
  lemma {:induction false} FilterDistinct(vms: seq<HelipadViewModel>, q: string)
    requires forall i, j :: 0 <= i < j < |vms| ==> vms[i].model != vms[j].model
    ensures forall k :: 0 <= k < |Filter(vms, q)| ==> Filter(vms, q)[k] in vms
    ensures forall i, j :: 0 <= i < j < |Filter(vms, q)| ==> Filter(vms, q)[i].model != Filter(vms, q)[j].model
  {
    if vms != [] {
      var front, last := vms[..|vms| - 1], vms[|vms| - 1];
      FilterDistinct(front, q);
      var f0 := Filter(front, q);
      forall k | 0 <= k < |f0|
        ensures f0[k] in vms && f0[k].model != last.model
      {
        assert f0[k] in front;
        var i :| 0 <= i < |front| && front[i] == f0[k];
        assert vms[i] == f0[k];
      }
      assert Filter(vms, q) == f0 + (if Shown(last.model.icao, last.model.name, q) then [last] else []);
    }
  }

  /** Filtering one more view appends it when the query shows it. */
  lemma FilterSnoc(vms: seq<HelipadViewModel>, k: nat, q: string)
    requires k < |vms|
    ensures Filter(vms[..k + 1], q) ==
      Filter(vms[..k], q) + (if Shown(vms[k].model.icao, vms[k].model.name, q) then [vms[k]] else [])
  {
    assert vms[..k + 1][..k] == vms[..k];
  }

  /** An empty or white-space search keeps every view. */
  lemma {:induction false} BlankSearchShowsAll(vms: seq<HelipadViewModel>, search: string)
    requires IsBlank(search)
    ensures Filter(vms, Trim(search)) == vms
  {
    TrimSpec(search);
    if vms != [] {
      BlankSearchShowsAll(vms[..|vms| - 1], search);
      assert vms == vms[..|vms| - 1] + [vms[|vms| - 1]];
    }
  }

  // ---------------------------------------------------------------------
  // Map lookup
  // ---------------------------------------------------------------------

  /** `FirstOrDefault` by identifier, ignoring case: the index of the first
      view whose record has identifier `icao`. */
  function FirstByIcao(vms: seq<HelipadViewModel>, icao: string): (r: Option<nat>)
    reads set vm | vm in vms :: vm.model
    ensures r.Some? ==> r.value < |vms| && EqualsIgnoreCase(vms[r.value].model.icao, icao)
    ensures r.Some? ==> forall j :: 0 <= j < r.value ==> !EqualsIgnoreCase(vms[j].model.icao, icao)
    ensures r.None? ==> forall j :: 0 <= j < |vms| ==> !EqualsIgnoreCase(vms[j].model.icao, icao)
  {
    if vms == [] then None
    else if EqualsIgnoreCase(vms[0].model.icao, icao) then Some(0)
    else
      var rest := FirstByIcao(vms[1..], icao);
      if rest.Some? then Some(rest.value + 1) else None
  }

  // ---------------------------------------------------------------------
  // Bulk toggle
  // ---------------------------------------------------------------------

  /** What the bulk loop does with one visited record whose selected file is
      `path`: nothing when there is no file (a null check only) or the file is
      in use; otherwise the file service's toggle. */
  function BulkVisit(d: Disk, path: Option<Path>, backupBeforeRename: bool, stamp: string): Option<ToggleOutcome> {
    if path.None? then None
    else if IsFileInUse(d, path.value) then None
    else Some(ToggleEffect(d, path.value, backupBeforeRename, stamp, false))
  }

  /** The bulk loop checks only for a missing path, not a blank one, yet it
      guards exactly as a single toggle does: a blank path is always in use. */
  lemma BulkVisitIsViewToggle(d: Disk, path: Option<Path>, backupBeforeRename: bool, stamp: string)
    ensures BulkVisit(d, path, backupBeforeRename, stamp) == ViewToggle(d, path, backupBeforeRename, stamp)
  {
  }

  /** The state the bulk loop threads through the visited records: the disk,
      the entries pushed on the undo stack, and whether each visited record's
      flag was flipped. */
  datatype BulkResult = BulkResult(disk: Disk, pushed: seq<RenameOperation>, flipped: seq<bool>)

  /** The bulk loop over records with selected files `paths`, in order; the
      `k`-th visit takes the backup time stamp `stamps(k)`. */
  function Bulk(d: Disk, paths: seq<Option<Path>>, backupBeforeRename: bool, stamps: nat -> string): BulkResult {
    if paths == [] then BulkResult(d, [], [])
    else
      var r := Bulk(d, paths[..|paths| - 1], backupBeforeRename, stamps);
      var v := BulkVisit(r.disk, paths[|paths| - 1], backupBeforeRename, stamps(|paths| - 1));
      if v.None? then BulkResult(r.disk, r.pushed, r.flipped + [false])
      else BulkResult(v.value.disk, r.pushed + Pushed(v.value), r.flipped + [v.value.success])
  }

  /** The entry a successful toggle of `p` pushes. */
  function EntryFor(p: Path, backupBeforeRename: bool, stamp: string): RenameOperation {
    RenameOperation(ToggleTarget(p), p, if backupBeforeRename then Some(BackupPath(p, stamp)) else None)
  }

  /** The entries for the flipped records, in visit order. */
  function FlippedEntries(paths: seq<Option<Path>>, flipped: seq<bool>, backupBeforeRename: bool, stamps: nat -> string): seq<RenameOperation>
    requires |flipped| == |paths|
  {
    if paths == [] then []
    else
      var k := |paths| - 1;
      FlippedEntries(paths[..k], flipped[..k], backupBeforeRename, stamps) +
      (if flipped[k] && paths[k].Some? then [EntryFor(paths[k].value, backupBeforeRename, stamps(k))] else [])
  }

  /** Every visited record gets a flag; only a record with a selected file
      can be flipped; and the undo stack receives one entry per flipped
      record, in visit order, so undo walks the bulk toggle backwards. */
  lemma {:induction false} BulkUndoOrder(d: Disk, paths: seq<Option<Path>>, backupBeforeRename: bool, stamps: nat -> string)
    ensures var r := Bulk(d, paths, backupBeforeRename, stamps);
      |r.flipped| == |paths| &&
      (forall k :: 0 <= k < |paths| && r.flipped[k] ==> paths[k].Some?) &&
      r.pushed == FlippedEntries(paths, r.flipped, backupBeforeRename, stamps)
  {
    if paths != [] {
      var k := |paths| - 1;
      var r0 := Bulk(d, paths[..k], backupBeforeRename, stamps);
      BulkUndoOrder(d, paths[..k], backupBeforeRename, stamps);
      var v := BulkVisit(r0.disk, paths[k], backupBeforeRename, stamps(k));
      VisitPushes(r0.disk, paths[k], backupBeforeRename, stamps(k));
      var r := Bulk(d, paths, backupBeforeRename, stamps);
      var b := v.Some? && v.value.success;
      assert r.flipped == r0.flipped + [b];
      assert r.flipped[..k] == r0.flipped;
      assert r.pushed == r0.pushed + (if v.None? then [] else Pushed(v.value));
      forall j | 0 <= j < |paths| && r.flipped[j]
        ensures paths[j].Some?
      {
        if j < k {
          assert r.flipped[j] == r0.flipped[j] && paths[j] == paths[..k][j];
        }
      }
    }
  }

  /** One visit pushes the entry for its file exactly when its toggle
      succeeded, and nothing otherwise. */
  lemma VisitPushes(d: Disk, path: Option<Path>, backupBeforeRename: bool, stamp: string)
    ensures var v := BulkVisit(d, path, backupBeforeRename, stamp);
      (v.Some? && v.value.success ==> path.Some?) &&
      (if v.None? then [] else Pushed(v.value)) ==
        (if v.Some? && v.value.success then [EntryFor(path.value, backupBeforeRename, stamp)] else [])
  {
    var v := BulkVisit(d, path, backupBeforeRename, stamp);
    if v.Some? {
      if v.value.success {
        ToggleSuccessEffect(d, path.value, backupBeforeRename, stamp, false);
      } else {
        ToggleFailureEffect(d, path.value, backupBeforeRename, stamp, false);
      }
    }
  }

  /** One more visit extends the bulk result by that visit's effect. */
  lemma BulkSnoc(d: Disk, paths: seq<Option<Path>>, k: nat, backupBeforeRename: bool, stamps: nat -> string)
    requires k < |paths|
    ensures var r := Bulk(d, paths[..k], backupBeforeRename, stamps);
      var v := BulkVisit(r.disk, paths[k], backupBeforeRename, stamps(k));
      Bulk(d, paths[..k + 1], backupBeforeRename, stamps) ==
        if v.None? then BulkResult(r.disk, r.pushed, r.flipped + [false])
        else BulkResult(v.value.disk, r.pushed + Pushed(v.value), r.flipped + [v.value.success])
  {
    assert paths[..k + 1][..k] == paths[..k];
  }

  /** The selected files of the records behind `vms`. */
  function SelectedPaths(vms: seq<HelipadViewModel>): (paths: seq<Option<Path>>)
    reads set vm | vm in vms :: vm.model
    ensures |paths| == |vms|
    ensures forall k :: 0 <= k < |vms| ==> paths[k] == vms[k].model.sceneryFilePath
  {
    if vms == [] then [] else SelectedPaths(vms[..|vms| - 1]) + [vms[|vms| - 1].model.sceneryFilePath]
  }

  /** The records behind `vms`, in order. */
  function RecordsOf(vms: seq<HelipadViewModel>): (models: seq<Helipad>)
    ensures |models| == |vms|
    ensures forall k :: 0 <= k < |vms| ==> models[k] == vms[k].model
  {
    if vms == [] then [] else RecordsOf(vms[..|vms| - 1]) + [vms[|vms| - 1].model]
  }

  lemma RecordsOfSnoc(vms: seq<HelipadViewModel>, vm: HelipadViewModel)
    ensures RecordsOf(vms + [vm]) == RecordsOf(vms) + [vm.model]
  {
    assert (vms + [vm])[..|vms|] == vms;
  }

  // ---------------------------------------------------------------------
  // Refresh
  // ---------------------------------------------------------------------

  /** Whether a refresh is abandoned by cancellation: reading an existing
      CSV file observes it, or discovery stops at its first file. */
  predicate RefreshCancelled(csvPath: string, csvFile: Option<seq<string>>, folder: string,
                             listing: Option<seq<string>>, cancelled: bool)
  {
    cancelled &&
    ((!IsBlank(csvPath) && csvFile.Some?) ||
     (!IsBlank(folder) && listing.Some? && |SceneryFiles(listing.value)| > 0))
  }

  /** The scenery files a refresh matches against: none when the folder
      path is blank. */
  function RefreshFiles(folder: string, listing: Option<seq<string>>): seq<string> {
    if IsBlank(folder) || listing.None? then [] else SceneryFiles(listing.value)
  }

  /** The rows a refresh parses: none when the CSV path is blank. */
  function RefreshRecords(csvPath: string, csvFile: Option<seq<string>>, parse: string -> Option<real>): seq<CsvRecord> {
    if IsBlank(csvPath) then [] else ParseCsv(CsvLines(csvPath, csvFile), parse)
  }

  /** A record as a refresh leaves it: the row's fields, the scan time, and
      the selection matched from scratch against `files`. */
  predicate Loaded(h: Helipad, rec: CsvRecord, files: seq<string>, now: Timestamp)
    reads h
  {
    h.icao == rec.icao && h.name == rec.name && h.latitude == rec.latitude &&
    h.longitude == rec.longitude && h.lastScanTimestamp == now &&
    h.Matching() == MatchRecord(rec.icao, Unmatched, files)
  }

  /** One fresh, loaded record per row of `recs`, in order, no record twice. */
  twostate predicate Refreshed(new result: seq<Helipad>, recs: seq<CsvRecord>, files: seq<string>, now: Timestamp)
    reads result
  {
    |result| == |recs| &&
    (forall k :: 0 <= k < |result| ==> fresh(result[k]) && Loaded(result[k], recs[k], files, now)) &&
    (forall j, k :: 0 <= j < k < |result| ==> result[j] != result[k])
  }

  /** The scanning part of `RefreshAsync`: parse the CSV when its path is
      set, discover the scenery files when the folder is set, and match the
      parsed records against them. Cancellation of either scan abandons the
      refresh. */
  method ScanAndMatch(csvPath: string, csvFile: Option<seq<string>>, folder: string, listing: Option<seq<string>>,
                      parse: string -> Option<real>, now: Timestamp, cancelled: bool)
    returns (outcome: Scan<seq<Helipad>>)
    ensures outcome.Cancelled? <==> RefreshCancelled(csvPath, csvFile, folder, listing, cancelled)
    ensures outcome.Completed? ==>
      Refreshed(outcome.value, RefreshRecords(csvPath, csvFile, parse), RefreshFiles(folder, listing), now)
  {
    var records: seq<Helipad> := [];
    ghost var recs: seq<CsvRecord> := [];
    if !IsBlank(csvPath) {
      var scan, reports := ScanCsv(csvPath, csvFile, parse, now, cancelled);
      if scan.Cancelled? {
        return Cancelled;
      }
      records := scan.value;
      recs := ParseCsv(CsvLines(csvPath, csvFile), parse);
    }
    assert Produced(records, recs, now);
    var bgls: seq<string> := [];
    if !IsBlank(folder) {
      var found, reports := FindBglFiles(folder, listing, cancelled);
      if found.Cancelled? {
        return Cancelled;
      }
      bgls := found.value;
    }
    var matched := MatchParsed(records, recs, bgls, now);
    return Completed(matched);
  }

  /** Matching freshly parsed records: each one ends up loaded. */
  method MatchParsed(records: seq<Helipad>, ghost recs: seq<CsvRecord>, files: seq<string>, now: Timestamp)
    returns (matched: seq<Helipad>)
    requires |records| == |recs|
    requires forall k :: 0 <= k < |records| ==> Describes(records[k], recs[k], now)
    modifies (set h | h in records)`candidateSceneryFiles, (set h | h in records)`sceneryFilePath,
      (set h | h in records)`isEnabled
    ensures matched == records
    ensures forall k :: 0 <= k < |records| ==> Loaded(records[k], recs[k], files, now)
  {
    label Parsed:
    matched := MatchHelipadsToBgls(records, files);
    forall k | 0 <= k < |records|
      ensures Loaded(records[k], recs[k], files, now)
    {
      assert records[k] in records;
      assert old@Parsed(Describes(records[k], recs[k], now));
    }
  }

  class MainViewModel {
    const fileService: FileService
    var helipads: seq<HelipadViewModel>
    var filtered: seq<HelipadViewModel>
    var search: string
    var progress: real
    /** The debounce timer has been restarted and the filter not yet applied. */
    var filterPending: bool

    /** Every view has its own record, every view shares this file service,
        and the filtered list holds distinct views of the list. */
    predicate Valid()
      reads this
    {
      (forall i, j :: 0 <= i < j < |helipads| ==> helipads[i].model != helipads[j].model) &&
      (forall i, j :: 0 <= i < j < |filtered| ==> filtered[i].model != filtered[j].model) &&
      (forall vm :: vm in helipads ==> vm.fileService == fileService) &&
      (forall vm :: vm in filtered ==> vm in helipads)
    }

    constructor (fileService: FileService)
      ensures this.fileService == fileService
      ensures helipads == [] && filtered == [] && search == [] && progress == 0.0 && !filterPending
      ensures Valid()
    {
      this.fileService := fileService;
      helipads := [];
      filtered := [];
      search := [];
      progress := 0.0;
      filterPending := false;
    }

    /** The `Search` setter: an unchanged value does nothing; a new value is
        stored and restarts the debounce timer. */
    method SetSearch(value: string) returns (changed: bool)
      modifies this`search, this`filterPending
      ensures changed <==> old(search) != value
      ensures search == value
      ensures filterPending == (old(filterPending) || changed)
    {
      if search == value {
        return false;
      }
      search := value;
      filterPending := true;
      return true;
    }

    /** `ApplyFilter`: the filtered list becomes the views the trimmed search
        shows, in list order. */
    method ApplyFilter()
      requires Valid()
      modifies this`filtered
      ensures filtered == Filter(helipads, Trim(search))
      ensures Valid()
    {
      var q := Trim(search);
      filtered := [];
      for k := 0 to |helipads|
        invariant filtered == Filter(helipads[..k], q)
      {
        FilterSnoc(helipads, k, q);
        var vm := helipads[k];
        if Shown(vm.model.icao, vm.model.name, q) {
          filtered := filtered + [vm];
        }
      }
      assert helipads[..|helipads|] == helipads;
      FilterMembers(helipads, q);
      FilterDistinct(helipads, q);
    }

    /** The debounce timer firing: the pending filter is applied. */
    method FilterTimerElapsed()
      requires Valid()
      modifies this`filtered, this`filterPending
      ensures filtered == Filter(helipads, Trim(search))
      ensures !filterPending && Valid()
    {
      ApplyFilter();
      filterPending := false;
    }

    /** `BulkToggleVisibleAsync`: visits the filtered views in order, toggling
        each one's selected file unless it has none or the file is in use,
        and flips each view's flag exactly when its toggle succeeded. */
    method BulkToggleVisible(fs: FileSystem, backupBeforeRename: bool, stamps: nat -> string)
      requires Valid()
      modifies RecordsOf(filtered)`isEnabled, fileService, fs
      ensures var r := Bulk(old(fs.disk), old(SelectedPaths(filtered)), backupBeforeRename, stamps);
        fs.disk == r.disk && fileService.undoStack == old(fileService.undoStack) + r.pushed &&
        |r.flipped| == |filtered| &&
        forall k :: 0 <= k < |filtered| ==> filtered[k].model.isEnabled == (old(filtered[k].model.isEnabled) != r.flipped[k])
    {
      ToggleEach(filtered, fs, backupBeforeRename, stamps);
    }

    /** The bulk loop over a snapshot `visit` of views with distinct records
        that share this file service. */
    method ToggleEach(visit: seq<HelipadViewModel>, fs: FileSystem, backupBeforeRename: bool, stamps: nat -> string)
      requires forall i, j :: 0 <= i < j < |visit| ==> visit[i].model != visit[j].model
      requires forall vm :: vm in visit ==> vm.fileService == fileService
      modifies RecordsOf(visit)`isEnabled, fileService, fs
      ensures var r := Bulk(old(fs.disk), old(SelectedPaths(visit)), backupBeforeRename, stamps);
        fs.disk == r.disk && fileService.undoStack == old(fileService.undoStack) + r.pushed &&
        |r.flipped| == |visit| &&
        forall k :: 0 <= k < |visit| ==> visit[k].model.isEnabled == (old(visit[k].model.isEnabled) != r.flipped[k])
    {
      ghost var paths := SelectedPaths(visit);
      ghost var r := BulkResult(fs.disk, [], []);
      for k := 0 to |visit|
        invariant r == Bulk(old(fs.disk), paths[..k], backupBeforeRename, stamps)
        invariant fs.disk == r.disk && fileService.undoStack == old(fileService.undoStack) + r.pushed
        invariant |r.flipped| == k
        invariant forall j :: 0 <= j < |visit| ==>
          visit[j].model.isEnabled == (old(visit[j].model.isEnabled) != (j < k && r.flipped[j]))
      {
        var vm := visit[k];
        label Visit:
        r := VisitStep(vm, fs, backupBeforeRename, stamps, old(fs.disk), paths, k, r, old(fileService.undoStack));
        forall j | 0 <= j < |visit| && j != k
          ensures visit[j].model.isEnabled == old@Visit(visit[j].model.isEnabled)
        {
          assert visit[j].model != vm.model;
        }
      }
      assert paths[..|visit|] == paths;
    }

    /** One visit of the bulk loop, as the bulk result after `k` visits
        extended by the `k`-th: `flipped` gains whether the view's flag
        changed. */
    method VisitStep(vm: HelipadViewModel, fs: FileSystem, backupBeforeRename: bool, stamps: nat -> string,
                     ghost d: Disk, ghost paths: seq<Option<Path>>, k: nat, ghost r: BulkResult,
                     ghost base: seq<RenameOperation>) returns (ghost next: BulkResult)
      requires vm.fileService == fileService
      requires k < |paths| && paths[k] == vm.model.sceneryFilePath
      requires r == Bulk(d, paths[..k], backupBeforeRename, stamps)
      requires fs.disk == r.disk && fileService.undoStack == base + r.pushed
      modifies vm.model`isEnabled, fileService, fs
      ensures next == Bulk(d, paths[..k + 1], backupBeforeRename, stamps)
      ensures fs.disk == next.disk && fileService.undoStack == base + next.pushed
      ensures next.flipped == r.flipped + [vm.model.isEnabled != old(vm.model.isEnabled)]
    {
      BulkSnoc(d, paths, k, backupBeforeRename, stamps);
      var v := BulkVisit(fs.disk, paths[k], backupBeforeRename, stamps(k));
      VisitOne(vm, fs, backupBeforeRename, stamps(k));
      next := if v.None? then BulkResult(r.disk, r.pushed, r.flipped + [false])
              else BulkResult(v.value.disk, r.pushed + Pushed(v.value), r.flipped + [v.value.success]);
    }

    /** The body of the bulk loop for one view. */
    method VisitOne(vm: HelipadViewModel, fs: FileSystem, backupBeforeRename: bool, stamp: string)
      requires vm.fileService == fileService
      modifies vm.model`isEnabled, fileService, fs
      ensures var v := BulkVisit(old(fs.disk), vm.model.sceneryFilePath, backupBeforeRename, stamp);
        (v.None? ==>
          fs.disk == old(fs.disk) && fileService.undoStack == old(fileService.undoStack) &&
          vm.model.isEnabled == old(vm.model.isEnabled)) &&
        (v.Some? ==>
          fs.disk == v.value.disk && fileService.undoStack == old(fileService.undoStack) + Pushed(v.value) &&
          vm.model.isEnabled == (old(vm.model.isEnabled) != v.value.success))
    {
      var path := vm.model.sceneryFilePath;
      if path.None? {
        return;
      }
      if IsFileInUse(fs.disk, path.value) {
        return;
      }
      var success, message := fileService.ToggleEnable(fs, path.value, backupBeforeRename, stamp, false);
      if success {
        var _ := vm.SetIsEnabled(!vm.model.isEnabled);
      }
    }

    /** `HandleToggleFromMapAsync`: a blank identifier, or one no record has,
        does nothing; otherwise the first view whose record has the
        identifier, ignoring case, is toggled. */
    method HandleToggleFromMap(icao: string, fs: FileSystem, backupBeforeRename: bool, stamp: string)
      requires Valid()
      modifies RecordsOf(helipads)`isEnabled, fileService, fs
      ensures IsBlank(icao) || old(FirstByIcao(helipads, icao)).None? ==>
        fs.disk == old(fs.disk) && fileService.undoStack == old(fileService.undoStack) &&
        forall vm :: vm in helipads ==> vm.model.isEnabled == old(vm.model.isEnabled)
      ensures !IsBlank(icao) && old(FirstByIcao(helipads, icao)).Some? ==>
        var i := old(FirstByIcao(helipads, icao)).value;
        var v := ViewToggle(old(fs.disk), old(helipads[i].model.sceneryFilePath), backupBeforeRename, stamp);
        (forall j :: 0 <= j < |helipads| && j != i ==> helipads[j].model.isEnabled == old(helipads[j].model.isEnabled)) &&
        (v.None? ==>
          fs.disk == old(fs.disk) && fileService.undoStack == old(fileService.undoStack) &&
          helipads[i].model.isEnabled == old(helipads[i].model.isEnabled)) &&
        (v.Some? ==>
          fs.disk == v.value.disk && fileService.undoStack == old(fileService.undoStack) + Pushed(v.value) &&
          helipads[i].model.isEnabled == (old(helipads[i].model.isEnabled) != v.value.success))
    {
      if IsBlank(icao) {
        return;
      }
      var found := FirstByIcao(helipads, icao);
      if found.None? {
        return;
      }
      var vm := helipads[found.value];
      assert vm.fileService == fileService;
      vm.Toggle(fs, backupBeforeRename, stamp);
    }

    /** `UndoAsync`: undoes the last rename through the shared file service. */
    method Undo(fs: FileSystem) returns (success: bool, message: string)
      modifies fileService, fs
      ensures old(fileService.undoStack) == [] ==>
        !success && message == "Nothing to undo" && fileService.undoStack == [] && fs.disk == old(fs.disk)
      ensures old(fileService.undoStack) != [] ==>
        var stack := old(fileService.undoStack);
        var u := UndoEffect(old(fs.disk), stack[|stack| - 1]);
        fileService.undoStack == stack[..|stack| - 1] &&
        fs.disk == u.disk && success == u.success && message == u.message
    {
      success, message := fileService.UndoLast(fs);
    }

    /** `RefreshAsync`: scans and matches, then replaces the list with one
        new view per record, in order, and re-applies the filter. A cancelled
        scan leaves the list as it was. Progress ends at zero either way. */
    method Refresh(csvPath: string, csvFile: Option<seq<string>>, folder: string, listing: Option<seq<string>>,
                   parse: string -> Option<real>, now: Timestamp, cancelled: bool)
      requires Valid()
      modifies this`helipads, this`filtered, this`progress
      ensures progress == 0.0 && Valid()
      ensures RefreshCancelled(csvPath, csvFile, folder, listing, cancelled) ==>
        helipads == old(helipads) && filtered == old(filtered)
      ensures !RefreshCancelled(csvPath, csvFile, folder, listing, cancelled) ==>
        Refreshed(RecordsOf(helipads), RefreshRecords(csvPath, csvFile, parse), RefreshFiles(folder, listing), now) &&
        (forall vm :: vm in helipads ==> fresh(vm) && vm.fileService == fileService) &&
        filtered == Filter(helipads, Trim(search))
    {
      var scan := ScanAndMatch(csvPath, csvFile, folder, listing, parse, now, cancelled);
      if scan.Cancelled? {
        progress := 0.0;
        return;
      }
      progress := 0.0;
      Install(scan.value);
    }

    /** The dispatcher part of `RefreshAsync`: the list becomes one new view
        per record, in order, and the filter is re-applied. */
    method Install(records: seq<Helipad>)
      requires forall i, j :: 0 <= i < j < |records| ==> records[i] != records[j]
      modifies this`helipads, this`filtered
      ensures RecordsOf(helipads) == records
      ensures forall vm :: vm in helipads ==> fresh(vm) && vm.fileService == fileService
      ensures filtered == Filter(helipads, Trim(search)) && Valid()
    {
      helipads := NewViews(records);
      filtered := [];
      ApplyFilter();
    }

    /** One new view per record, in order, sharing this file service. */
    method NewViews(records: seq<Helipad>) returns (views: seq<HelipadViewModel>)
      ensures RecordsOf(views) == records
      ensures forall vm :: vm in views ==> fresh(vm) && vm.fileService == fileService
    {
      views := [];
      for k := 0 to |records|
        invariant RecordsOf(views) == records[..k]
        invariant forall vm :: vm in views ==> fresh(vm) && vm.fileService == fileService
      {
        var vm := new HelipadViewModel(records[k], fileService);
        RecordsOfSnoc(views, vm);
        assert records[..k + 1] == records[..k] + [records[k]];
        views := views + [vm];
      }
      assert records[..|records|] == records;
    }
  }
}
