/** The parts of a file path that the core reads (`System.IO.Path` on
    Windows, where both `\` and `/` separate directories). */
module Paths {
  import opened Text

  predicate IsSeparator(c: char) {
    c == '\\' || c == '/'
  }

  /** `Path.GetFileName`: the part of `p` after its last directory separator. */
  function FileName(p: string): (r: string)
    ensures |r| <= |p|
  {
    if p == [] || IsSeparator(p[|p| - 1]) then [] else FileName(p[..|p| - 1]) + [p[|p| - 1]]
  }

  /** The file name is the longest separator-free suffix of the path. */
  lemma {:induction false} FileNameIsLastComponent(p: string)
    ensures FileName(p) == p[|p| - |FileName(p)|..]
    ensures forall i :: 0 <= i < |FileName(p)| ==> !IsSeparator(FileName(p)[i])
    ensures |FileName(p)| < |p| ==> IsSeparator(p[|p| - |FileName(p)| - 1])
  {
    if p != [] && !IsSeparator(p[|p| - 1]) {
      var front := p[..|p| - 1];
      FileNameIsLastComponent(front);
      assert FileName(p) == FileName(front) + [p[|p| - 1]];
      assert p[|p| - |FileName(p)|..] == front[|front| - |FileName(front)|..] + [p[|p| - 1]];
    }
  }

  /** The directory part of `p`, up to and including its last separator. */
  function DirectoryPrefix(p: string): string {
    p[..|p| - |FileName(p)|]
  }

  /** `string.LastIndexOf(c)`: the index of the last `c` in `s`, or -1. */
  function LastIndexOf(s: string, c: char): (i: int)
    ensures -1 <= i < |s|
    ensures i >= 0 ==> s[i] == c
    ensures forall j :: i < j < |s| ==> s[j] != c
  {
    if s == [] then -1
    else if s[|s| - 1] == c then |s| - 1
    else LastIndexOf(s[..|s| - 1], c)
  }

  /** `Path.GetFileNameWithoutExtension`: the file name up to its last period. */
  function FileNameWithoutExtension(p: string): string {
    var name := FileName(p);
    var dot := LastIndexOf(name, '.');
    if dot < 0 then name else name[..dot]
  }

  /** The name without extension is a prefix of the file name, shorter
      exactly when the name has a period, and free of periods after it. */
  lemma StemIsPrefix(p: string)
    ensures |FileNameWithoutExtension(p)| <= |FileName(p)|
    ensures FileNameWithoutExtension(p) == FileName(p)[..|FileNameWithoutExtension(p)|]
    ensures '.' in FileName(p) <==> |FileNameWithoutExtension(p)| < |FileName(p)|
    ensures forall j :: |FileNameWithoutExtension(p)| < j < |FileName(p)| ==> FileName(p)[j] != '.'
    ensures |FileNameWithoutExtension(p)| < |FileName(p)| ==> FileName(p)[|FileNameWithoutExtension(p)|] == '.'
  {
    var name := FileName(p);
    if '.' in name {
      var j :| 0 <= j < |name| && name[j] == '.';
    }
  }

  /** Appending separator-free text to a path extends its file name by that
      text and leaves its directory alone. */
  lemma {:induction false} FileNameAppend(p: string, suffix: string)
    requires forall i :: 0 <= i < |suffix| ==> !IsSeparator(suffix[i])
    ensures FileName(p + suffix) == FileName(p) + suffix
    ensures DirectoryPrefix(p + suffix) == DirectoryPrefix(p)
    decreases |suffix|
  {
    if suffix == [] {
      assert p + suffix == p;
    } else {
      var front, c := suffix[..|suffix| - 1], suffix[|suffix| - 1];
      assert suffix == front + [c];
      FileNameAppend(p, front);
      FileNameSnoc(p + front, c);
      Regroup(p, front, [c]);
      Regroup(FileName(p), front, [c]);
    }
  }

  lemma FileNameSnoc(p: string, c: char)
    requires !IsSeparator(c)
    ensures FileName(p + [c]) == FileName(p) + [c]
  {
    assert (p + [c])[..|p|] == p;
  }
}
