/**
 * The `os.path` operations the wrapper uses, with POSIX separators:
 * `join`, `basename` and the root part of `splitext`.
 */
module Paths {
  import opened PyStr

  /** `s.rfind(c)`: the index of the last `c` in `s`, or -1 when there is none. */
  function LastIndexOf(s: string, c: char): (k: int)
    ensures -1 <= k < |s|
    ensures k == -1 ==> c !in s
    ensures 0 <= k ==> s[k] == c && forall j :: k < j < |s| ==> s[j] != c
  {
    if s == [] then -1
    else if s[|s| - 1] == c then |s| - 1
    else
      assert s == s[..|s| - 1] + [s[|s| - 1]];
      LastIndexOf(s[..|s| - 1], c)
  }

  /** What `join` puts in front of a relative name. */
  function JoinPrefix(directory: string): (prefix: string)
    ensures prefix == [] || prefix[|prefix| - 1] == '/'
    ensures StartsWith(prefix, directory)
  {
    if directory == [] || directory[|directory| - 1] == '/' then directory else directory + "/"
  }

  /** `os.path.join(directory, name)`: an absolute name replaces the
      directory; otherwise a separator is inserted unless the directory is
      empty or already ends with one. */
  function Join(directory: string, name: string): (path: string)
    ensures StartsWith(name, "/") ==> path == name
    ensures !StartsWith(name, "/") ==> path == JoinPrefix(directory) + name
  {
    if StartsWith(name, "/") then name
    else if directory == [] || directory[|directory| - 1] == '/' then directory + name
    else directory + "/" + name
  }

  /** `os.path.basename(path)`: what follows the last separator. */
  function Basename(path: string): (name: string)
    ensures '/' !in name
    ensures EndsWith(path, name)
    ensures |name| < |path| ==> path[|path| - |name| - 1] == '/'
  {
    var k := LastIndexOf(path, '/');
    assert path[|path| - |path[k + 1..]|..] == path[k + 1..];
    path[k + 1..]
  }

  /** `os.path.splitext(name)[0]` for a name without separators: the name
      without its last extension, where a dot preceded only by dots does not
      start an extension. */
  function StripExtension(name: string): (root: string)
    ensures StartsWith(name, root)
    ensures root == name || (name[|root|] == '.' && '.' !in name[|root| + 1..] && exists j :: 0 <= j < |root| && root[j] != '.')
    ensures root == name <==> forall i, j :: 0 <= j < i < |name| && name[i] == '.' ==> name[j] == '.'
  {
    var dot := LastIndexOf(name, '.');
    if dot > 0 && exists j | 0 <= j < dot :: name[j] != '.' then name[..dot] else name
  }

  /** "clip.v2.mp4" loses only its last extension; ".profile", whose only
      dot leads, has none. */
  lemma StripExtensionExamples()
    ensures StripExtension("clip.v2.mp4") == "clip.v2"
    ensures StripExtension(".profile") == ".profile"
  {
    var clip, profile := "clip.v2.mp4", ".profile";
    assert clip[7] == '.' && clip[8] == 'm' && clip[9] == 'p' && clip[10] == '4';
    assert LastIndexOf(clip, '.') == 7;
    assert clip[..7] == "clip.v2";
    assert clip[0] != '.';
    assert LastIndexOf(profile, '.') == 0;
  }

  lemma {:induction false} LastIndexOfAppend(prefix: string, tail: string, c: char)
    requires c !in tail
    ensures LastIndexOf(prefix + tail, c) == LastIndexOf(prefix, c)
    decreases |tail|
  {
    if tail != [] {
      var s := prefix + tail;
      assert s[..|s| - 1] == prefix + tail[..|tail| - 1];
      LastIndexOfAppend(prefix, tail[..|tail| - 1], c);
    } else {
      assert prefix + tail == prefix;
    }
  }

  lemma NotAbsolute(name: string)
    requires '/' !in name
    ensures !StartsWith(name, "/")
  {
    if name != [] {
      assert name[..1] == [name[0]];
    }
  }

  /** Joining a plain file name onto a directory and taking the basename gives the name back. */
  lemma BasenameOfJoin(directory: string, name: string)
    requires '/' !in name
    ensures Basename(Join(directory, name)) == name
  {
    var prefix := JoinPrefix(directory);
    NotAbsolute(name);
    LastIndexOfAppend(prefix, name, '/');
    var k := LastIndexOf(prefix, '/');
    assert k == |prefix| - 1;
    assert (prefix + name)[k + 1..] == name;
  }

  /** Two relative names joined onto the same directory give different paths. */
  lemma JoinInjective(directory: string, a: string, b: string)
    requires !StartsWith(a, "/") && !StartsWith(b, "/")
    requires Join(directory, a) == Join(directory, b)
    ensures a == b
  {
    var prefix := JoinPrefix(directory);
    assert a == (prefix + a)[|prefix|..];
    assert b == (prefix + b)[|prefix|..];
  }
}
