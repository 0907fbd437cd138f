/** The directory tree below the folder the user picked, and the three
    filesystem primitives the arranger calls on it: `os.makedirs(...,
    exist_ok=True)`, `shutil.move` and `os.remove`. */
module FileTree {
  import opened Basics
  
  type Name = string

  /** A path relative to the chosen source directory: `[]` is that
      directory, `[n]` one of its direct children, `[c, n]` an entry of the
      child folder `c`. */
  type Path = seq<Name>

  type Bytes = seq<bv8>

  datatype Node = File(content: Bytes) | Dir

  /** Every entry below the source directory, keyed by its path. */
  type FileSystem = map<Path, Node>

  /** The errors the three primitives raise in the modelled situations. */
  datatype FsError =
    | FolderIsFile(path: Path)        // os.makedirs: FileExistsError, a regular file is in the way
    | DestinationExists(path: Path)   // shutil.move into a folder that already holds the name
    | NotAFile(path: Path)            // os.remove on a path that is no regular file

  /** A final filesystem state together with what an operation reports. */
  datatype Outcome<+R> = Outcome(fs: FileSystem, report: R)

  /** A name that `os.path.join` treats as one directory entry: not empty,
      not `.` or `..`, and free of the path separator. */
  predicate ValidName(n: string) {
    n != "" && n != "." && n != ".." && forall k :: 0 <= k < |n| ==> n[k] != '/'
  }

  predicate IsFile(fs: FileSystem, p: Path) {
    p in fs && fs[p].File?
  }

  /** The source directory itself is a directory; so is every `Dir` entry. */
  predicate IsDir(fs: FileSystem, p: Path) {
    p == [] || (p in fs && fs[p].Dir?)
  }

  /** `p` is in the same state in both trees. */
  predicate Agree(fs: FileSystem, fs': FileSystem, p: Path) {
    (p in fs <==> p in fs') && (p in fs ==> fs[p] == fs'[p])
  }

  /** Every entry sits inside a directory. */
  ghost predicate WellFormed(fs: FileSystem) {
    forall p :: p in fs ==> p != [] && IsDir(fs, p[..|p| - 1])
  }

  /** `listing` is what `os.listdir` returns for the source directory:
      every direct child exactly once, in some filesystem-defined order. */
  ghost predicate Lists(fs: FileSystem, listing: seq<Name>) {
    && NoDuplicates(listing)
    && forall n :: n in listing <==> [n] in fs
  }

  /** `os.makedirs(<source>/<name>, exist_ok=True)`: nothing to do for an
      existing folder, an error for a regular file of that name, otherwise
      the folder is created. */
  function MakeFolder(fs: FileSystem, name: Name): (r: Result<FileSystem, FsError>)
    ensures r.Failure? <==> IsFile(fs, [name])
    ensures r.Failure? ==> r.error == FolderIsFile([name])
    ensures r.Success? ==> IsDir(r.value, [name])
    ensures r.Success? ==> forall p :: p != [name] ==> Agree(fs, r.value, p)
    ensures r.Success? ==> forall p :: p in fs ==> p in r.value
    ensures r.Success? && WellFormed(fs) ==> WellFormed(r.value)
  {
    if [name] in fs then
      if fs[[name]].Dir? then Success(fs) else Failure(FolderIsFile([name]))
    else
      var fs' := fs[[name] := Dir];
      assert [name][..0] == [];
      Success(fs')
  }

  /** Where `shutil.move(<source>/<name>, <source>/<folder>/<name>)` puts
      the file: inside `<folder>/<name>` when that is itself a folder,
      otherwise at `<folder>/<name>`. */
  function MoveTarget(fs: FileSystem, name: Name, folder: Name): Path {
    if IsDir(fs, [folder, name]) then [folder, name, name] else [folder, name]
  }

  /** `shutil.move(<source>/<name>, <source>/<folder>/<name>)` for a regular
      file `name` and an existing `folder`. When `<folder>/<name>` is a
      folder the file goes inside it and its name must be free there;
      otherwise the file is renamed to `<folder>/<name>`, replacing a file
      already there (a rename does so on POSIX, and the copy-then-delete
      fallback does so everywhere). Returns the new tree and where the file
      ended up. */
  function MoveInto(fs: FileSystem, name: Name, folder: Name): (r: Result<(FileSystem, Path), FsError>)
    requires IsFile(fs, [name]) && IsDir(fs, [folder])
    ensures r.Failure? <==> MoveTarget(fs, name, folder) == [folder, name, name] && [folder, name, name] in fs
    ensures r.Failure? ==> r.error == DestinationExists([folder, name, name])
    ensures r.Success? ==>
      && r.value.1 == MoveTarget(fs, name, folder)
      && r.value.1 in r.value.0 && r.value.0[r.value.1] == fs[[name]]
      && [name] !in r.value.0
      && forall p :: p != [name] && p != r.value.1 ==> Agree(fs, r.value.0, p)
  {
    var at := MoveTarget(fs, name, folder);
    if at == [folder, name, name] && at in fs then Failure(DestinationExists(at))
    else Success(((fs - {[name]})[at := fs[[name]]], at))
  }

  /** `os.remove(p)`: deletes a regular file, raises for anything else. */
  function Remove(fs: FileSystem, p: Path): (r: Result<FileSystem, FsError>)
    ensures r.Failure? <==> !IsFile(fs, p)
    ensures r.Failure? ==> r.error == NotAFile(p)
    ensures r.Success? ==> p !in r.value && forall q :: q != p ==> Agree(fs, r.value, q)
    ensures r.Success? && WellFormed(fs) ==> WellFormed(r.value)
  {
    if IsFile(fs, p) then Success(fs - {p}) else Failure(NotAFile(p))
  }

  /** A successful move keeps the tree well formed. */
  lemma MoveIntoPreservesWellFormed(fs: FileSystem, name: Name, folder: Name)
    requires IsFile(fs, [name]) && IsDir(fs, [folder])
    requires WellFormed(fs)
    requires MoveInto(fs, name, folder).Success?
    ensures WellFormed(MoveInto(fs, name, folder).value.0)
  {
    var (fs', at) := MoveInto(fs, name, folder).value;
    assert at[..|at| - 1] == [folder] || at[..|at| - 1] == [folder, name];
    forall p | p in fs'
      ensures p != []
      ensures IsDir(fs', p[..|p| - 1])
    {
      if p != at {
        assert p in fs && p != [name];
        var parent := p[..|p| - 1];
        assert IsDir(fs, parent);
        assert parent != [name];
        assert parent != at || at == [folder, name];
      }
    }
  }
}
