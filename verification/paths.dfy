// Full paths as the change trackers build them from watcher events: the
// directory part of a path and the joining of a directory with a relative
// name, on the Windows separator.
module FileSystemPaths {

  datatype Option<T> = None | Some(value: T)

  const Separator: char := '\\'

  /** Path.Combine for a relative name: one separator between the parts. */
  function Combine(directory: string, name: string): (path: string)
    ensures directory == [] ==> path == name
    ensures directory != [] && directory[|directory| - 1] != Separator ==> path == directory + [Separator] + name
    ensures directory != [] && directory[|directory| - 1] == Separator ==> path == directory + name
  {
    if directory == [] then name
    else if directory[|directory| - 1] == Separator then directory + name
    else directory + [Separator] + name
  }

  /** The position of the last separator, or -1 when there is none. */
  function LastSeparator(path: string): (k: int)
    ensures -1 <= k < |path|
    ensures k >= 0 ==> path[k] == Separator
    ensures forall j :: k < j < |path| ==> path[j] != Separator
  {
    if path == [] then -1
    else if path[|path| - 1] == Separator then |path| - 1
    else LastSeparator(path[..|path| - 1])
  }

  /** Path.GetDirectoryName: everything before the last separator; none for a
      path without one. */
  function DirectoryName(path: string): (d: Option<string>)
    ensures d.None? <==> Separator !in path
    ensures d.Some? ==> |d.value| < |path| && path[..|d.value|] == d.value && path[|d.value|] == Separator
    ensures d.Some? ==> Separator !in path[|d.value| + 1..]
  {
    var k := LastSeparator(path);
    if k < 0 then None else Some(path[..k])
  }

  /** A Renamed notification of a watcher on `directory`: the old and the new name
      relative to that directory. */
  datatype RenameEvent = RenameEvent(directory: string, oldName: string, name: string)
  {
    function OldFullPath(): string
    {
      Combine(directory, oldName)
    }

    function FullPath(): string
    {
      Combine(directory, name)
    }
  }

  /** The directory of a plain name joined to a directory is that directory. */
  lemma DirectoryOfCombine(directory: string, name: string)
    requires directory != [] && directory[|directory| - 1] != Separator
    requires Separator !in name
    ensures DirectoryName(Combine(directory, name)) == Some(directory)
  {
    var path := Combine(directory, name);
    assert path[|directory|] == Separator;
    forall j | |directory| < j < |path| ensures path[j] != Separator {
      assert path[j] == name[j - |directory| - 1];
    }
    assert LastSeparator(path) == |directory|;
    assert path[..|directory|] == directory;
  }
}
