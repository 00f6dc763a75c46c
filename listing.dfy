/** `list_hooks`: the executables of a hook directory, as sorted absolute
 *  paths. The file system is given as the two queries the function makes. */
module Listing {
  import opened Wrappers
  import opened Seqs
  import opened Text
  import opened Ordering

  /** `os.listdir` (None where it raises OSError, for one because the
   *  directory does not exist) and `util.is_exe`. */
  datatype FileSystem = FileSystem(listDir: string -> Option<seq<string>>, isExe: string -> bool)

  /** `os.path.join(dir, f)` for every entry f, in listing order. */
  function JoinAll(dir: string, names: seq<string>): seq<string> {
    seq(|names|, i requires 0 <= i < |names| => PathJoin(dir, names[i]))
  }

  /** The paths that pass isExe, in their order. */
  function Executables(paths: seq<string>, isExe: string -> bool): seq<string> {
    if paths == [] then []
    else (if isExe(paths[0]) then [paths[0]] else []) + Executables(paths[1..], isExe)
  }

  /** Executables keeps exactly the paths that pass isExe. */
  lemma {:induction false} ExecutablesMembers(paths: seq<string>, isExe: string -> bool)
    ensures forall p :: p in Executables(paths, isExe) <==> p in paths && isExe(p)
    decreases |paths|
  {
    if paths != [] {
      ExecutablesMembers(paths[1..], isExe);
      assert paths == [paths[0]] + paths[1..];
    }
  }

  /** Executables keeps each path at most as often as it occurs. */
  lemma {:induction false} ExecutablesMultiset(paths: seq<string>, isExe: string -> bool)
    ensures multiset(Executables(paths, isExe)) <= multiset(paths)
    decreases |paths|
  {
    if paths != [] {
      ExecutablesMultiset(paths[1..], isExe);
      assert paths == [paths[0]] + paths[1..];
    }
  }

  /** Executables keeps distinct paths distinct. */
  lemma {:induction false} ExecutablesNoDup(paths: seq<string>, isExe: string -> bool)
    requires NoDup(paths)
    ensures NoDup(Executables(paths, isExe))
    decreases |paths|
  {
    if paths != [] {
      var head, tail := paths[0], paths[1..];
      NoDupTail(paths);
      ExecutablesNoDup(tail, isExe);
      if isExe(head) {
        var rest := Executables(tail, isExe);
        var r := Executables(paths, isExe);
        assert r == [head] + rest;
        assert head !in rest by { ExecutablesMembers(tail, isExe); }
        forall i, j | 0 <= i < j < |r| ensures r[i] != r[j] {
          if i == 0 { assert r[j] in rest; }
          else { assert r[i] == rest[i - 1] && r[j] == rest[j - 1]; }
        }
      }
    }
  }

  /** `list_hooks(dir)`: None where `os.listdir` raises; otherwise the joined
   *  paths that pass `util.is_exe`, sorted ascending. What the listing holds
   *  is stated by the lemma ListHooksContents. */
  function ListHooks(fs: FileSystem, dir: string): (r: Option<seq<string>>)
    ensures r.None? <==> fs.listDir(dir).None?
  {
    match fs.listDir(dir)
    case None => None
    case Some(names) => Some(Sort(Executables(JoinAll(dir, names), fs.isExe)))
  }

  /** The listing is sorted, is a permutation of the executables among the
   *  joined entries, and holds exactly those paths. */
  lemma ListHooksContents(fs: FileSystem, dir: string)
    requires fs.listDir(dir).Some?
    ensures var r := ListHooks(fs, dir).value;
      var paths := JoinAll(dir, fs.listDir(dir).value);
      && Sorted(r)
      && multiset(r) == multiset(Executables(paths, fs.isExe))
      && forall p :: p in r <==> p in paths && fs.isExe(p)
  {
    var found := Executables(JoinAll(dir, fs.listDir(dir).value), fs.isExe);
    ExecutablesMembers(JoinAll(dir, fs.listDir(dir).value), fs.isExe);
    SortCorrect(found);
    var sorted := Sort(found);
    assert forall p :: p in sorted <==> p in multiset(found);
  }

  /** A directory's entries are distinct names without '/', so the listing is
   *  strictly ascending: no hook path is listed twice. */
  lemma ListHooksStrictlyAscending(fs: FileSystem, dir: string)
    requires fs.listDir(dir).Some?
    requires NoDup(fs.listDir(dir).value)
    requires forall i :: 0 <= i < |fs.listDir(dir).value| ==> '/' !in fs.listDir(dir).value[i]
    ensures var r := ListHooks(fs, dir).value;
      forall i, j :: 0 <= i < j < |r| ==> LessEq(r[i], r[j]) && r[i] != r[j]
  {
    var names := fs.listDir(dir).value;
    var paths := JoinAll(dir, names);
    forall i, j | 0 <= i < j < |paths| ensures paths[i] != paths[j] {
      if paths[i] == paths[j] {
        PathJoinInjective(dir, names[i], names[j]);
      }
    }
    assert NoDup(paths);
    ExecutablesNoDup(paths, fs.isExe);
    SortCorrect(Executables(paths, fs.isExe));
  }
}
