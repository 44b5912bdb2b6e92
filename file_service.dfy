/** The toggle engine: it renames a scenery file between its enabled form
    (`x.bgl`) and its disabled form (`x.bgl.OFF`), optionally after copying
    a time-stamped backup beside it, and it keeps a last-in-first-out stack of
    the renames so that the latest one can be undone. */
module FileServices {
  import opened Wrappers
  import opened Text
  import opened Paths
  import opened Disks

  /** An undo-stack entry: the file now at `from` goes back to `to`;
      `backupPath` names the copy made before the rename, if any. */
  datatype RenameOperation = RenameOperation(from: Path, to: Path, backupPath: Option<Path>)

  /** What one toggle did: the new disk, the entry it pushed, and its reply. */
  datatype ToggleOutcome = ToggleOutcome(disk: Disk, pushed: Option<RenameOperation>, success: bool, message: string)

  /** What one undo did: the new disk and its reply. */
  datatype UndoOutcome = UndoOutcome(disk: Disk, success: bool, message: string)

  /** A path names a disabled scenery file when it ends in ".off", in any
      case; the ".bgl.off" form is one such ending. */
  predicate IsDisabledPath(p: Path) {
    EndsWithIgnoreCase(p, ".off")
  }

  lemma LowerOfSuffixes()
    ensures Lower(".off") == ".off" && Lower(".OFF") == ".off" && Lower(".bgl.off") == ".bgl.off"
  {
    assert Lower(".off") == ".off";
    assert Lower(".OFF") == ".off";
    assert Lower(".bgl.off") == ".bgl.off";
  }

  /** Whatever ends in ".bgl.off" ends in ".off". */
  lemma EndsWithLongerSuffix(s: string)
    requires EndsWith(s, ".bgl.off")
    ensures EndsWith(s, ".off")
  {
    assert s[|s| - 4..] == s[|s| - 8..][4..];
  }

  /** The name a toggle renames `p` to: a disabled path loses its last four
      characters (the ".off" ending in whatever case it has), any other path
      gains ".OFF". The program's test on the lowered path uses the
      culture-sensitive `EndsWith`; it is compared ordinally here, which makes
      the branch that keeps the path unchanged unreachable. */
  function ToggleTarget(p: Path): (target: Path)
    ensures IsDisabledPath(p) ==> |p| >= 4 && target == p[..|p| - 4]
    ensures !IsDisabledPath(p) ==> target == p + ".OFF"
  {
    LowerOfSuffixes();
    var lower := Lower(p);
    assert EndsWith(lower, ".bgl.off") ==> EndsWith(lower, ".off") by {
      if EndsWith(lower, ".bgl.off") {
        EndsWithLongerSuffix(lower);
      }
    }
    var currentlyDisabled := EndsWith(lower, ".off") || EndsWith(lower, ".bgl.off");
    if currentlyDisabled then
      if EndsWithIgnoreCase(p, ".bgl.off") then p[..|p| - |".off"|]
      else if EndsWithIgnoreCase(p, ".off") then p[..|p| - |".off"|]
      else assert false; p
    else p + ".OFF"
  }

  /** Disabling and then enabling gives back exactly the path one started from. */
  lemma ToggleTargetRoundTrip(p: Path)
    requires !IsDisabledPath(p)
    ensures IsDisabledPath(ToggleTarget(p))
    ensures ToggleTarget(ToggleTarget(p)) == p
  {
    LowerOfSuffixes();
    var t := p + ".OFF";
    LowerAppend(p, ".OFF");
    assert Lower(t)[|Lower(t)| - 4..] == ".off";
    assert t[..|t| - 4] == p;
  }

  /** A toggle changes whether the path reads as disabled, except for a
      path ending in ".off.off", which still reads as disabled after one
      ".off" is stripped. */
  lemma ToggleFlipsDisabled(p: Path)
    ensures IsDisabledPath(ToggleTarget(p)) <==> !IsDisabledPath(p) || EndsWithIgnoreCase(p, ".off.off")
  {
    LowerOfSuffixes();
    assert Lower(".off.off") == ".off.off";
    if !IsDisabledPath(p) {
      ToggleTargetRoundTrip(p);
      if EndsWithIgnoreCase(p, ".off.off") {
        EndsWithLongerSuffixOff(Lower(p));
      }
    } else {
      var t := p[..|p| - 4];
      LowerSlice(p, 0, |p| - 4);
      var lp := Lower(p);
      assert Lower(t) == lp[..|lp| - 4];
      if IsDisabledPath(t) {
        assert lp[|lp| - 8..] == lp[..|lp| - 4][|lp| - 8..] + lp[|lp| - 4..];
      }
      if EndsWithIgnoreCase(p, ".off.off") {
        assert lp[..|lp| - 4][|lp| - 8..] == lp[|lp| - 8..][..4];
      }
    }
  }

  lemma EndsWithLongerSuffixOff(s: string)
    requires EndsWith(s, ".off.off")
    ensures EndsWith(s, ".off")
  {
    assert s[|s| - 4..] == s[|s| - 8..][4..];
  }

  /** Enabling and then disabling gives back the path one started from up to
      the case of its ".off" ending, which becomes ".OFF". */
  lemma ToggleTargetFromDisabled(p: Path)
    requires IsDisabledPath(p) && !EndsWithIgnoreCase(p, ".off.off")
    ensures !IsDisabledPath(ToggleTarget(p))
    ensures ToggleTarget(ToggleTarget(p)) == p[..|p| - 4] + ".OFF"
    ensures EqualsIgnoreCase(ToggleTarget(ToggleTarget(p)), p)
  {
    ToggleFlipsDisabled(p);
    LowerOfSuffixes();
    var t := p[..|p| - 4];
    LowerAppend(t, ".OFF");
    LowerSlice(p, 0, |p| - 4);
    assert p == t + p[|p| - 4..];
    LowerAppend(t, p[|p| - 4..]);
    LowerSlice(p, |p| - 4, |p|);
  }

  /** The backup file: `<name>.bak_<stamp>` in the directory of `p`. */
  function BackupPath(p: Path, stamp: string): Path {
    DirectoryPrefix(p) + (FileName(p) + ".bak_" + stamp)
  }

  /** For a stamp without separators (the source formats it from digits only),
      the backup sits beside the file and its name is the file's name plus
      ".bak_" and the stamp. */
  lemma BackupIsSibling(p: Path, stamp: string)
    requires forall i :: 0 <= i < |stamp| ==> !IsSeparator(stamp[i])
    ensures BackupPath(p, stamp) == p + ".bak_" + stamp
    ensures DirectoryPrefix(BackupPath(p, stamp)) == DirectoryPrefix(p)
    ensures FileName(BackupPath(p, stamp)) == FileName(p) + ".bak_" + stamp
  {
    var tail := ".bak_" + stamp;
    assert forall i :: 0 <= i < |tail| ==> !IsSeparator(tail[i]) by {
      forall i | 0 <= i < |tail| ensures !IsSeparator(tail[i]) {
        if i >= 5 {
          assert tail[i] == stamp[i - 5];
        }
      }
    }
    SiblingName(p, tail);
    Regroup(p, ".bak_", stamp);
    Regroup(FileName(p), ".bak_", stamp);
  }

  /** Appending a separator-free tail to the file name of `p`, in the
      directory of `p`, appends it to `p`. */
  lemma SiblingName(p: Path, tail: string)
    requires forall i :: 0 <= i < |tail| ==> !IsSeparator(tail[i])
    ensures DirectoryPrefix(p) + (FileName(p) + tail) == p + tail
    ensures DirectoryPrefix(p + tail) == DirectoryPrefix(p)
    ensures FileName(p + tail) == FileName(p) + tail
  {
    var dir, name := DirectoryPrefix(p), FileName(p);
    assert dir + (name + tail) == p + tail by {
      FileNameIsLastComponent(p);
      assert dir + name == p;
      Regroup(dir, name, tail);
    }
    FileNameAppend(p, tail);
  }

  /** The backup never takes the name the file is renamed to. */
  lemma BackupIsNotTarget(p: Path, stamp: string)
    ensures BackupPath(p, stamp) != ToggleTarget(p)
  {
    FileNameIsLastComponent(p);
    assert DirectoryPrefix(p) + FileName(p) == p;
    var b := BackupPath(p, stamp);
    assert b == p + ".bak_" + stamp;
    if IsDisabledPath(p) {
      assert |ToggleTarget(p)| < |b|;
    } else {
      assert b[|p| + 1] == 'b';
      assert ToggleTarget(p)[|p| + 1] == 'O';
    }
  }

  /** `Path.GetFileName` of both names, as the success message shows them. */
  function RenamedMessage(from: Path, to: Path): string {
    "Renamed '" + FileName(from) + "' -> '" + FileName(to) + "'"
  }

  /** The reply for a caught exception, by its class. */
  function FaultMessage(f: Fault): string {
    match f
    case IOFault(m) => "IO error: " + m
    case AccessFault(m) => "Permission error: " + m
    case OtherFault(m) => "Error: " + m
  }

  /** The `OperationCanceledException` raised by a cancelled token. */
  const Canceled: Fault := OtherFault("The operation was canceled.")

  /** `IsFileInUse`: true unless an exclusive open of the file succeeds, so a
      missing file, and a blank path (which `File.Open` rejects), also count
      as in use. */
  function IsFileInUse(d: Disk, path: Path): (inUse: bool)
    ensures IsBlank(path) ==> inUse
    ensures path !in d.files ==> inUse
    ensures path in d.locked || path in d.denied ==> inUse
    ensures !inUse ==> !IsBlank(path) && FileExists(d, path)
    ensures !IsBlank(path) && CanOpenExclusive(d, path) ==> !inUse
  {
    IsBlank(path) || !CanOpenExclusive(d, path)
  }

  /** What `ToggleEnableAsync` does to the disk, and what it pushes and replies. */
  function ToggleEffect(d: Disk, filePath: Path, backupBeforeRename: bool, stamp: string, cancelled: bool): ToggleOutcome {
    if IsBlank(filePath) then ToggleOutcome(d, None, false, "No file path provided")
    else if !FileExists(d, filePath) then ToggleOutcome(d, None, false, "File doesn't exist")
    else if cancelled then ToggleOutcome(d, None, false, FaultMessage(Canceled))
    else
      var target := ToggleTarget(filePath);
      var backupPath := if backupBeforeRename then Some(BackupPath(filePath, stamp)) else None;
      var copied := if backupBeforeRename then CopyFile(d, filePath, BackupPath(filePath, stamp)) else Success(d);
      match copied
      case Failure(e) => ToggleOutcome(d, None, false, FaultMessage(e))
      case Success(d1) =>
        match MoveFile(d1, filePath, target)
        case Failure(e) => ToggleOutcome(d1, None, false, FaultMessage(e))
        case Success(d2) =>
          ToggleOutcome(d2, Some(RenameOperation(target, filePath, backupPath)), true, RenamedMessage(filePath, target))
  }

  /** What `UndoLastAsync` does with the entry it popped. */
  function UndoEffect(d: Disk, op: RenameOperation): UndoOutcome {
    if !FileExists(d, op.from) then UndoOutcome(d, false, "File to undo does not exist")
    else
      match MoveFile(d, op.from, op.to)
      case Failure(e) => UndoOutcome(d, false, "Undo failed: " + e.message)
      case Success(d2) => UndoOutcome(d2, true, "Undo: " + FileName(op.from) + " -> " + FileName(op.to))
  }

  function Pushed(o: ToggleOutcome): seq<RenameOperation> {
    if o.pushed.Some? then [o.pushed.value] else []
  }

  /** A blank or missing path is refused before anything is touched. */
  lemma ToggleRejectsInvalidPath(d: Disk, filePath: Path, backupBeforeRename: bool, stamp: string, cancelled: bool)
    requires IsBlank(filePath) || !FileExists(d, filePath)
    ensures ToggleEffect(d, filePath, backupBeforeRename, stamp, cancelled) ==
      ToggleOutcome(d, None, false, if IsBlank(filePath) then "No file path provided" else "File doesn't exist")
  {
  }

  /** A toggle succeeds exactly when the path is not blank, no cancellation
      was requested, the file can be opened, and both the target and (when
      asked for) the backup name are free. */
  lemma ToggleSucceedsIff(d: Disk, p: Path, backupBeforeRename: bool, stamp: string, cancelled: bool)
    ensures ToggleEffect(d, p, backupBeforeRename, stamp, cancelled).success <==>
      !IsBlank(p) && !cancelled && CanOpenExclusive(d, p) &&
      ToggleTarget(p) !in d.files && ToggleTarget(p) !in d.denied &&
      (backupBeforeRename ==> BackupPath(p, stamp) !in d.files && BackupPath(p, stamp) !in d.denied)
  {
    BackupIsNotTarget(p, stamp);
    CopyFileSpec(d, p, BackupPath(p, stamp));
    if backupBeforeRename && CopyFile(d, p, BackupPath(p, stamp)).Success? {
      MoveFileSpec(CopyFile(d, p, BackupPath(p, stamp)).value, p, ToggleTarget(p));
    }
    MoveFileSpec(d, p, ToggleTarget(p));
  }

  /** After a successful toggle the file lives under the target name only,
      with the same content; exactly one entry (target, original, backup) is
      pushed; the reply names both file names; the backup, when asked for,
      holds the original content; no other file changes. */
  lemma ToggleSuccessEffect(d: Disk, p: Path, backupBeforeRename: bool, stamp: string, cancelled: bool)
    requires ToggleEffect(d, p, backupBeforeRename, stamp, cancelled).success
    ensures var o := ToggleEffect(d, p, backupBeforeRename, stamp, cancelled);
      var target := ToggleTarget(p);
      var backup := if backupBeforeRename then Some(BackupPath(p, stamp)) else None;
      p !in o.disk.files && target in o.disk.files && o.disk.files[target] == d.files[p] &&
      o.pushed == Some(RenameOperation(target, p, backup)) &&
      o.message == "Renamed '" + FileName(p) + "' -> '" + FileName(target) + "'" &&
      (backup.Some? ==> backup.value in o.disk.files && o.disk.files[backup.value] == d.files[p]) &&
      (forall q :: q in d.files && q != p ==> q in o.disk.files && o.disk.files[q] == d.files[q]) &&
      o.disk.locked == d.locked && o.disk.denied == d.denied
  {
    var target := ToggleTarget(p);
    if backupBeforeRename {
      var b := BackupPath(p, stamp);
      CopyFileSpec(d, p, b);
      MoveFileSpec(CopyFile(d, p, b).value, p, target);
    } else {
      MoveFileSpec(d, p, target);
    }
  }

  /** A failed toggle pushes nothing and loses or moves no file; the only
      file it may leave behind is the backup copy made before a failed move. */
  lemma ToggleFailureEffect(d: Disk, p: Path, backupBeforeRename: bool, stamp: string, cancelled: bool)
    requires !ToggleEffect(d, p, backupBeforeRename, stamp, cancelled).success
    ensures var o := ToggleEffect(d, p, backupBeforeRename, stamp, cancelled);
      o.pushed.None? && o.disk.locked == d.locked && o.disk.denied == d.denied &&
      (o.disk.files == d.files ||
       (backupBeforeRename && p in d.files && o.disk.files == d.files[BackupPath(p, stamp) := d.files[p]]))
  {
  }

  /** The reply of a failed toggle names the check that stopped it, or the
      class and text of the exception that was actually raised: the
      cancellation, the failed backup copy, or the failed move. */
  lemma ToggleFailureMessage(d: Disk, p: Path, backupBeforeRename: bool, stamp: string, cancelled: bool)
    requires !ToggleEffect(d, p, backupBeforeRename, stamp, cancelled).success
    ensures var m := ToggleEffect(d, p, backupBeforeRename, stamp, cancelled).message;
      var copied := if backupBeforeRename then CopyFile(d, p, BackupPath(p, stamp)) else Success(d);
      (IsBlank(p) ==> m == "No file path provided") &&
      (!IsBlank(p) && !FileExists(d, p) ==> m == "File doesn't exist") &&
      (!IsBlank(p) && FileExists(d, p) && cancelled ==> m == "Error: The operation was canceled.") &&
      (!IsBlank(p) && FileExists(d, p) && !cancelled && copied.Failure? ==> m == FaultMessage(copied.error)) &&
      (!IsBlank(p) && FileExists(d, p) && !cancelled && copied.Success? ==>
        MoveFile(copied.value, p, ToggleTarget(p)).Failure? &&
        m == FaultMessage(MoveFile(copied.value, p, ToggleTarget(p)).error))
  {
    var o := ToggleEffect(d, p, backupBeforeRename, stamp, cancelled);
    CanceledMessage();
    if !IsBlank(p) && FileExists(d, p) && !cancelled {
      if backupBeforeRename {
        var copied := CopyFile(d, p, BackupPath(p, stamp));
        if copied.Success? {
          assert o.message == FaultMessage(MoveFile(copied.value, p, ToggleTarget(p)).error);
        }
      } else {
        assert o.message == FaultMessage(MoveFile(d, p, ToggleTarget(p)).error);
      }
    }
  }

  lemma CanceledMessage()
    ensures FaultMessage(Canceled) == "Error: The operation was canceled."
  {
  }

  /** A target name that is taken stops the rename with the exception the
      move raises for it: a denied target is a permission error, an existing
      one an I/O error, even after the backup copy was made. */
  lemma ToggleTargetTaken(d: Disk, p: Path, backupBeforeRename: bool, stamp: string)
    requires !IsBlank(p) && CanOpenExclusive(d, p)
    requires backupBeforeRename ==> BackupPath(p, stamp) !in d.files && BackupPath(p, stamp) !in d.denied
    ensures var m := ToggleEffect(d, p, backupBeforeRename, stamp, false).message;
      var target := ToggleTarget(p);
      (target in d.denied ==> m == "Permission error: " + AccessDenied(target).message) &&
      (target in d.files && target !in d.denied ==> m == "IO error: " + AlreadyExists(target).message)
  {
    BackupIsNotTarget(p, stamp);
  }

  /** Undoing the entry a toggle pushed moves the file back: the disk is the
      one before the toggle, plus the backup copy, which undo keeps. */
  lemma UndoAfterToggle(d: Disk, p: Path, backupBeforeRename: bool, stamp: string, cancelled: bool)
    requires d.Valid()
    requires ToggleEffect(d, p, backupBeforeRename, stamp, cancelled).success
    ensures var o := ToggleEffect(d, p, backupBeforeRename, stamp, cancelled);
      var u := UndoEffect(o.disk, o.pushed.value);
      u.success &&
      u.disk == (if backupBeforeRename then CopyFile(d, p, BackupPath(p, stamp)).value else d) &&
      u.message == "Undo: " + FileName(ToggleTarget(p)) + " -> " + FileName(p)
  {
    var target := ToggleTarget(p);
    var d1 := if backupBeforeRename then CopyFile(d, p, BackupPath(p, stamp)).value else d;
    CopyMoveKeepValid(d, p, BackupPath(p, stamp));
    assert d1.Valid();
    assert MoveFile(d1, p, target).Success?;
    MoveFileSpec(d1, p, target);
    MoveBack(d1, p, target);
  }

  /** Toggling an enabled file twice, without backups, restores the disk and
      the path exactly. */
  lemma ToggleTwiceRestores(d: Disk, p: Path)
    requires d.Valid() && !IsDisabledPath(p)
    requires ToggleEffect(d, p, false, "", false).success
    ensures var o1 := ToggleEffect(d, p, false, "", false);
      var o2 := ToggleEffect(o1.disk, ToggleTarget(p), false, "", false);
      o2.success && o2.disk == d && o2.pushed == Some(RenameOperation(p, ToggleTarget(p), None))
  {
    var target := ToggleTarget(p);
    ToggleTargetRoundTrip(p);
    MoveFileSpec(d, p, target);
    var d1 := MoveFile(d, p, target).value;
    assert !IsBlank(target) by {
      LowerOfSuffixes();
      assert target[|target| - 1] == 'F';
    }
    MoveBack(d, p, target);
  }

  /** The service that owns the undo stack; the last element is its top. */
  class FileService {
    var undoStack: seq<RenameOperation>

    constructor ()
      ensures undoStack == []
    {
      undoStack := [];
    }

    /** `ToggleEnableAsync`: the checks, the optional backup copy, the move,
        and the push, with every exception turned into a failed reply. */
    method ToggleEnable(fs: FileSystem, filePath: Path, backupBeforeRename: bool, stamp: string, cancelled: bool)
      returns (success: bool, message: string)
      modifies this, fs
      ensures var o := ToggleEffect(old(fs.disk), filePath, backupBeforeRename, stamp, cancelled);
        fs.disk == o.disk && success == o.success && message == o.message &&
        undoStack == old(undoStack) + Pushed(o)
    {
      if IsBlank(filePath) {
        return false, "No file path provided";
      }
      if !FileExists(fs.disk, filePath) {
        return false, "File doesn't exist";
      }
      if cancelled {
        return false, FaultMessage(Canceled);
      }
      var target := ToggleTarget(filePath);
      var backupPath: Option<Path> := None;
      if backupBeforeRename {
        var b := BackupPath(filePath, stamp);
        backupPath := Some(b);
        var copyFault := fs.Copy(filePath, b);
        if copyFault.Some? {
          return false, FaultMessage(copyFault.value);
        }
      }
      var moveFault := fs.Move(filePath, target);
      if moveFault.Some? {
        return false, FaultMessage(moveFault.value);
      }
      undoStack := undoStack + [RenameOperation(target, filePath, backupPath)];
      return true, RenamedMessage(filePath, target);
    }

    /** `UndoLastAsync`: pops the top entry before any check, so the entry is
        gone even when the undo fails, then moves the file back. */
    method UndoLast(fs: FileSystem) returns (success: bool, message: string)
      modifies this, fs
      ensures old(undoStack) == [] ==>
        !success && message == "Nothing to undo" && undoStack == [] && fs.disk == old(fs.disk)
      ensures old(undoStack) != [] ==>
        var u := UndoEffect(old(fs.disk), old(undoStack)[|old(undoStack)| - 1]);
        undoStack == old(undoStack)[..|old(undoStack)| - 1] &&
        fs.disk == u.disk && success == u.success && message == u.message
    {
      if undoStack == [] {
        return false, "Nothing to undo";
      }
      var op := undoStack[|undoStack| - 1];
      undoStack := undoStack[..|undoStack| - 1];
      if !FileExists(fs.disk, op.from) {
        return false, "File to undo does not exist";
      }
      var fault := fs.Move(op.from, op.to);
      if fault.Some? {
        return false, "Undo failed: " + fault.value.message;
      }
      return true, "Undo: " + FileName(op.from) + " -> " + FileName(op.to);
    }
  }
}
