/** `os.path.splitext` as the POSIX path module defines it. */
module Paths {
  import opened Text

  /** The final path component of `p` has a dot that is preceded, within that
      component, by a character other than a dot: exactly when `splitext`
      finds an extension. Leading dots belong to the root. */
  ghost predicate HasExtension(p: string)
  {
    exists j, i :: 0 <= j < i < |p| && p[j] != '.' && p[i] == '.' && NoSeparatorFrom(p, j)
  }

  ghost predicate NoSeparatorFrom(p: string, j: nat)
  {
    forall k :: j <= k < |p| ==> p[k] != '/'
  }

  /** `os.path.splitext(p)`: the extension starts at the last '.', provided
      that dot is in the final component and something other than dots
      precedes it there; otherwise the extension is empty. */
  function SplitExt(p: string): (string, string)
  {
    var sepIndex := LastIndex(p, '/');
    var dotIndex := LastIndex(p, '.');
    if sepIndex < dotIndex && exists k :: sepIndex < k < dotIndex && p[k] != '.' then
      (p[..dotIndex], p[dotIndex..])
    else
      (p, [])
  }

  /** Root and extension put back together give the path; the extension is
      empty or one dot followed by neither dots nor separators; and it is
      non-empty exactly when the path has an extension. */
  lemma SplitExtSpec(p: string)
    ensures var (root, ext) := SplitExt(p);
      && root + ext == p
      && (ext == [] || (ext[0] == '.' && forall k :: 0 < k < |ext| ==> ext[k] != '.' && ext[k] != '/'))
      && (ext != [] <==> HasExtension(p))
  {
    var sepIndex := LastIndex(p, '/');
    var dotIndex := LastIndex(p, '.');
    if sepIndex < dotIndex && exists k :: sepIndex < k < dotIndex && p[k] != '.' {
      var k :| sepIndex < k < dotIndex && p[k] != '.';
      assert NoSeparatorFrom(p, k);
      assert p[dotIndex..][0] == '.';
    }
  }

  /** A dot-file such as `.bashrc` has no extension: its one dot leads the name. */
  lemma DotFileHasNoExtension(p: string)
    requires |p| > 0 && p[0] == '.'
    requires forall k :: 0 < k < |p| ==> p[k] != '.'
    ensures SplitExt(p) == (p, [])
  {
    SplitExtSpec(p);
  }

  /** Only the last dot separates: `archive.tar.gz` splits into `archive.tar` and `.gz`. */
  lemma {:induction false} SplitAtLastDot(p: string, i: nat)
    requires 0 < i < |p| && p[i] == '.' && p[0] != '.'
    requires forall k :: 0 <= k < |p| ==> p[k] != '/'
    requires forall k :: i < k < |p| ==> p[k] != '.'
    ensures SplitExt(p) == (p[..i], p[i..])
  {
    assert NoSeparatorFrom(p, 0);
    assert HasExtension(p);
    SplitExtSpec(p);
    var r := SplitExt(p);
    assert p[|r.0|] == r.1[0];
  }
}
