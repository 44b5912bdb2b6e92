/** The part of the file system that the toggle engine touches: a map from
    path to file content, the paths another process holds open exclusively,
    and the paths this process may not access. `File.Copy` and `File.Move`
    are functions from one disk state to the next, or to the exception they
    raise; the class `FileSystem` is the one mutable disk they act on. */
module Disks {
  import opened Wrappers

  type Path = string
  type Content = seq<bv8>

  /** The exception classes the file service tells apart: `IOException`
      (with `FileNotFoundException`), `UnauthorizedAccessException`, and
      every other exception. */
  datatype Fault = IOFault(message: string) | AccessFault(message: string) | OtherFault(message: string)

  datatype Disk = Disk(files: map<Path, Content>, locked: set<Path>, denied: set<Path>) {
    /** Only an existing file can be held open. */
    predicate Valid() {
      locked <= files.Keys
    }
  }

  /** `File.Exists`: false for a missing file and for one the process may not access. */
  predicate FileExists(d: Disk, p: Path) {
    p in d.files && p !in d.denied
  }

  /** Whether `File.Open(p, FileMode.Open, FileAccess.Read, FileShare.None)` succeeds. */
  predicate CanOpenExclusive(d: Disk, p: Path) {
    FileExists(d, p) && p !in d.locked
  }

  function NotFound(p: Path): Fault {
    IOFault("Could not find file '" + p + "'.")
  }

  function AccessDenied(p: Path): Fault {
    AccessFault("Access to the path '" + p + "' is denied.")
  }

  function SharingViolation(p: Path): Fault {
    IOFault("The process cannot access the file '" + p + "' because it is being used by another process.")
  }

  function AlreadyExists(p: Path): Fault {
    IOFault("The file '" + p + "' already exists.")
  }

  /** `File.Copy(src, dst)`, which never overwrites. */
  function CopyFile(d: Disk, src: Path, dst: Path): Result<Disk, Fault> {
    if src in d.denied then Failure(AccessDenied(src))
    else if src !in d.files then Failure(NotFound(src))
    else if src in d.locked then Failure(SharingViolation(src))
    else if dst in d.denied then Failure(AccessDenied(dst))
    else if dst in d.files then Failure(AlreadyExists(dst))
    else Success(d.(files := d.files[dst := d.files[src]]))
  }

  /** `File.Move(src, dst)`, one rename that never overwrites. */
  function MoveFile(d: Disk, src: Path, dst: Path): Result<Disk, Fault> {
    if src in d.denied then Failure(AccessDenied(src))
    else if src !in d.files then Failure(NotFound(src))
    else if src in d.locked then Failure(SharingViolation(src))
    else if dst in d.denied then Failure(AccessDenied(dst))
    else if dst in d.files then Failure(AlreadyExists(dst))
    else Success(d.(files := (d.files - {src})[dst := d.files[src]]))
  }

  /** A copy succeeds exactly when the source can be read and the destination
      is free; it then adds the destination with the source's content and
      touches nothing else. */
  lemma CopyFileSpec(d: Disk, src: Path, dst: Path)
    ensures CopyFile(d, src, dst).Success? <==>
      CanOpenExclusive(d, src) && dst !in d.files && dst !in d.denied
    ensures CopyFile(d, src, dst).Success? ==>
      var e := CopyFile(d, src, dst).value;
      e.locked == d.locked && e.denied == d.denied &&
      e.files.Keys == d.files.Keys + {dst} && e.files[dst] == d.files[src] &&
      (forall p :: p in d.files ==> e.files[p] == d.files[p])
  {
  }

  /** A move succeeds exactly when the source can be opened and the
      destination is free; afterwards exactly one of the two paths exists,
      the content travels with the name, and every other file is untouched. */
  lemma MoveFileSpec(d: Disk, src: Path, dst: Path)
    ensures MoveFile(d, src, dst).Success? <==>
      CanOpenExclusive(d, src) && dst !in d.files && dst !in d.denied
    ensures MoveFile(d, src, dst).Success? ==>
      var e := MoveFile(d, src, dst).value;
      src != dst && src !in e.files && dst in e.files && e.files[dst] == d.files[src] &&
      e.locked == d.locked && e.denied == d.denied &&
      e.files.Keys == d.files.Keys - {src} + {dst} &&
      (forall p :: p in d.files && p != src ==> e.files[p] == d.files[p])
  {
  }

  /** Moving a file and moving it back restores the disk exactly. */
  lemma MoveBack(d: Disk, src: Path, dst: Path)
    requires d.Valid()
    requires MoveFile(d, src, dst).Success?
    ensures MoveFile(MoveFile(d, src, dst).value, dst, src) == Success(d)
  {
    var e := MoveFile(d, src, dst).value;
    assert dst !in e.locked;
    assert (e.files - {dst})[src := e.files[dst]] == d.files;
  }

  /** Copies and moves keep the disk well formed. */
  lemma CopyMoveKeepValid(d: Disk, src: Path, dst: Path)
    requires d.Valid()
    ensures CopyFile(d, src, dst).Success? ==> CopyFile(d, src, dst).value.Valid()
    ensures MoveFile(d, src, dst).Success? ==> MoveFile(d, src, dst).value.Valid()
  {
  }

  /** The one disk of the running process. */
  class FileSystem {
    var disk: Disk

    constructor (initial: Disk)
      ensures disk == initial
    {
      disk := initial;
    }

    method Copy(src: Path, dst: Path) returns (fault: Option<Fault>)
      modifies this
      ensures CopyFile(old(disk), src, dst).Success? ==>
        fault.None? && disk == CopyFile(old(disk), src, dst).value
      ensures CopyFile(old(disk), src, dst).Failure? ==>
        fault == Some(CopyFile(old(disk), src, dst).error) && disk == old(disk)
    {
      match CopyFile(disk, src, dst)
      case Success(next) =>
        disk := next;
        fault := None;
      case Failure(e) =>
        fault := Some(e);
    }

    method Move(src: Path, dst: Path) returns (fault: Option<Fault>)
      modifies this
      ensures MoveFile(old(disk), src, dst).Success? ==>
        fault.None? && disk == MoveFile(old(disk), src, dst).value
      ensures MoveFile(old(disk), src, dst).Failure? ==>
        fault == Some(MoveFile(old(disk), src, dst).error) && disk == old(disk)
    {
      match MoveFile(disk, src, dst)
      case Success(next) =>
        disk := next;
        fault := None;
      case Failure(e) =>
        fault := Some(e);
    }
  }
}
