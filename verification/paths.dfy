/**
 * Absolute paths as sequences of components, with the parent, basename and
 * extension accessors of the path library the tool uses.
 */
module Paths {
  import opened Results

  /** An absolute, normalised path as its components; `[]` is the root `/`. */
  type Path = seq<string>

  /** The enclosing directory; the root is its own parent. */
  function Parent(p: Path): (r: Path)
    ensures |p| == 0 ==> r == p
    ensures |p| > 0 ==> r + [p[|p| - 1]] == p
  {
    if |p| == 0 then p else p[..|p| - 1]
  }

  /** The ancestor reached by taking the parent `depth` times, as the source chains `parentDirectory`. */
  function Ancestor(p: Path, depth: nat): (r: Path)
    ensures depth <= |p| ==> r == p[..|p| - depth]
    ensures depth > |p| ==> r == []
  {
    if depth == 0 then p else Parent(Ancestor(p, depth - 1))
  }

  /** The last component; the root's basename is `/`. */
  function Basename(p: Path): string {
    if |p| == 0 then "/" else p[|p| - 1]
  }

  /**
   * Position of the last '.' among indices 1 .. n-1 of `name`: a dot in the
   * first position (a hidden file) never starts an extension.
   */
  function LastDotBefore(name: string, n: nat): (r: Option<nat>)
    requires n <= |name|
    ensures r.Some? ==> 1 <= r.value < n && name[r.value] == '.'
    ensures r.Some? ==> forall k :: r.value < k < n ==> name[k] != '.'
    ensures r.None? ==> forall k :: 1 <= k < n ==> name[k] != '.'
  {
    if n <= 1 then None
    else if name[n - 1] == '.' then Some(n - 1)
    else LastDotBefore(name, n - 1)
  }

  /**
   * The extension of one path component: the text after its last dot, absent
   * when there is no dot past the first character or the dot is the final character.
   */
  function NameExtension(name: string): Option<string> {
    match LastDotBefore(name, |name|)
    case None => None
    case Some(i) => if i == |name| - 1 then None else Some(name[i + 1..])
  }

  /** The extension of a path is that of its last component; the root has none. */
  function Extension(p: Path): Option<string> {
    if |p| == 0 then None else NameExtension(p[|p| - 1])
  }

  /**
   * A component has extension `e` exactly when it splits, at a dot that is not
   * its first character, into a stem and a non-empty dot-free `e`.
   */
  lemma NameExtensionSplit(name: string, e: string)
    ensures NameExtension(name) == Some(e) <==>
      exists i :: 1 <= i < |name| - 1 && name[i] == '.' && e == name[i + 1..] && '.' !in e
  {
    var r := LastDotBefore(name, |name|);
    if NameExtension(name) == Some(e) {
      var i := r.value;
      assert name[i] == '.';
      forall k | 0 <= k < |e| ensures e[k] != '.' {
        assert e[k] == name[i + 1 + k];
      }
    }
    if i :| 1 <= i < |name| - 1 && name[i] == '.' && e == name[i + 1..] && '.' !in e {
      assert r.Some?;
      var j := r.value;
      if j != i {
        assert false;
      }
    }
  }
}
