/** The directory part of the page's path, as the script computes it from
    `window.location.pathname` with `pathname.replace(/[^/]*$/, '')`: the
    trailing run of non-`/` characters (the file name) is removed. */
module BasePath {

  /** The number of `/` characters in `s`. */
  function Slashes(s: string): nat {
    multiset(s)['/']
  }

  /** `pathname.replace(/[^/]*$/, '')` */
  function StripFileName(path: string): (dir: string)
    ensures dir <= path
    ensures dir == [] || dir[|dir| - 1] == '/'
    ensures '/' !in path[|dir|..]
    decreases |path|
  {
    if path == [] then []
    else if path[|path| - 1] == '/' then path
    else StripFileName(path[..|path| - 1])
  }

  /** The pattern `[^/]*$` matches exactly the suffix after the last `/`: any
      split of `path` into a part that is empty or ends in `/` and a `/`-free
      rest is the one the strip makes. */
  lemma StripFileNameUnique(path: string, k: nat)
    requires k <= |path|
    requires k == 0 || path[k - 1] == '/'
    requires '/' !in path[k..]
    ensures StripFileName(path) == path[..k]
  {
  }

  /** The directory part keeps every `/` of the path. */
  lemma StripFileNameSlashes(path: string)
    ensures Slashes(StripFileName(path)) == Slashes(path)
  {
    var dir := StripFileName(path);
    assert path == dir + path[|dir|..];
    assert multiset(path) == multiset(dir) + multiset(path[|dir|..]);
  }

  /** Stripping again changes nothing. */
  lemma StripFileNameIdempotent(path: string)
    ensures StripFileName(StripFileName(path)) == StripFileName(path)
  {
  }
}
