/** The view of one helipad record: its enabled flag, written through to the
    record, and the toggle that renames the record's selected scenery file. */
module HelipadViewModels {
  import opened Wrappers
  import opened Text
  import opened Disks
  import opened Models
  import opened FileServices

  /** What a toggle from the record's view does when the record's selected
      file is `path`: nothing when no file is selected, the path is blank or
      the file is in use; otherwise the file service's toggle, which is never
      cancelled. */
  function ViewToggle(d: Disk, path: Option<Path>, backupBeforeRename: bool, stamp: string): Option<ToggleOutcome> {
    if path.None? || IsBlank(path.value) then None
    else if IsFileInUse(d, path.value) then None
    else Some(ToggleEffect(d, path.value, backupBeforeRename, stamp, false))
  }

  /** The view calls the file service exactly when a file is selected that an
      exclusive open would succeed on, and the toggle then succeeds exactly
      when the target name, and the backup name when asked for, are free. */
  lemma ViewToggleGuard(d: Disk, path: Option<Path>, backupBeforeRename: bool, stamp: string)
    ensures ViewToggle(d, path, backupBeforeRename, stamp).Some? <==>
      path.Some? && !IsBlank(path.value) && CanOpenExclusive(d, path.value)
    ensures ViewToggle(d, path, backupBeforeRename, stamp).Some? ==>
      var p := path.value;
      (ViewToggle(d, path, backupBeforeRename, stamp).value.success <==>
        ToggleTarget(p) !in d.files && ToggleTarget(p) !in d.denied &&
        (backupBeforeRename ==> BackupPath(p, stamp) !in d.files && BackupPath(p, stamp) !in d.denied))
  {
    if path.Some? {
      ToggleSucceedsIff(d, path.value, backupBeforeRename, stamp, false);
    }
  }

  /** The toggle never updates the record's selected file, and after a
      success that file is gone from the disk: a second toggle from the same
      view is refused by the in-use check and changes nothing. */
  lemma SecondToggleBlocked(d: Disk, path: Option<Path>, backupBeforeRename: bool, stamp: string,
                            backupAgain: bool, stampAgain: string)
    requires ViewToggle(d, path, backupBeforeRename, stamp).Some?
    requires ViewToggle(d, path, backupBeforeRename, stamp).value.success
    ensures ViewToggle(ViewToggle(d, path, backupBeforeRename, stamp).value.disk, path, backupAgain, stampAgain).None?
  {
    ToggleSuccessEffect(d, path.value, backupBeforeRename, stamp, false);
  }

  class HelipadViewModel {
    const model: Helipad
    const fileService: FileService

    constructor (model: Helipad, fileService: FileService)
      ensures this.model == model && this.fileService == fileService
    {
      this.model := model;
      this.fileService := fileService;
    }

    /** The `IsEnabled` setter: writes through to the record and notifies
        only when the value changes. */
    method SetIsEnabled(value: bool) returns (notified: bool)
      modifies model`isEnabled
      ensures model.isEnabled == value
      ensures notified <==> old(model.isEnabled) != value
    {
      if model.isEnabled == value {
        return false;
      }
      model.isEnabled := value;
      return true;
    }

    /** `ToggleAsync`: when the guard lets it through, toggles the selected
        file and flips the enabled flag exactly when the toggle succeeded;
        otherwise changes nothing. The selected file is never updated. */
    method Toggle(fs: FileSystem, backupBeforeRename: bool, stamp: string)
      modifies model`isEnabled, fileService, fs
      ensures var v := ViewToggle(old(fs.disk), model.sceneryFilePath, backupBeforeRename, stamp);
        (v.None? ==>
          fs.disk == old(fs.disk) && fileService.undoStack == old(fileService.undoStack) &&
          model.isEnabled == old(model.isEnabled)) &&
        (v.Some? ==>
          fs.disk == v.value.disk && fileService.undoStack == old(fileService.undoStack) + Pushed(v.value) &&
          model.isEnabled == (old(model.isEnabled) != v.value.success))
    {
      var path := model.sceneryFilePath;
      if path.None? || IsBlank(path.value) {
        return;
      }
      if IsFileInUse(fs.disk, path.value) {
        return;
      }
      var success, message := fileService.ToggleEnable(fs, path.value, backupBeforeRename, stamp, false);
      if success {
        var _ := SetIsEnabled(!model.isEnabled);
      }
    }
  }
}
