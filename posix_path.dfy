/** POSIX path handling used by the loader (Python's `posixpath`). */
module PosixPath {

  /**
   * `os.path.basename(p)` on POSIX: the part of `p` after its last `'/'`
   * (all of `p` when it has none, empty when `p` ends with `'/'`).
   */
  function Basename(p: string): (r: string)
    ensures |r| <= |p| && r == p[|p| - |r|..]
    ensures '/' !in r
    ensures |r| < |p| ==> p[|p| - |r| - 1] == '/'
  {
    if p == [] || p[|p| - 1] == '/' then
      []
    else
      Basename(p[..|p| - 1]) + [p[|p| - 1]]
  }

  /** The base name of `dir/name` is `name` whenever `name` holds no `'/'`. */
  lemma {:induction false} BasenameOfJoin(dir: string, name: string)
    requires '/' !in name
    ensures Basename(dir + "/" + name) == name
  {
    if name == [] {
      assert dir + "/" + name == dir + "/";
    } else {
      var init := name[..|name| - 1];
      assert forall k :: 0 <= k < |init| ==> init[k] == name[k];
      BasenameOfJoin(dir, init);
      var p := dir + "/" + name;
      assert p[..|p| - 1] == dir + "/" + init;
      assert p[|p| - 1] == name[|name| - 1];
      assert init + [name[|name| - 1]] == name;
    }
  }
}
