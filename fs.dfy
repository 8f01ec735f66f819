/** The data directory the store writes to and the reaper sweeps, as a
    value: the names in the order a directory listing returns them, and the
    file under each name (its bytes and its modification time in whole
    seconds). A path is the directory's path followed by a name. */
module Fs {
  import opened Wrappers
  import opened Text

  /** `os.path.join(settings.cwd, "data")` followed by the separator. */
  const DataDir: string := "data/"

  datatype File = File(data: seq<byte>, mtime: int)

  datatype Directory = Directory(names: seq<string>, files: map<string, File>)

  predicate Distinct(s: seq<string>) {
    forall i, j :: 0 <= i < j < |s| ==> s[i] != s[j]
  }

  /** The listing names every file exactly once. */
  ghost predicate Valid(d: Directory) {
    Distinct(d.names) && (forall n :: n in d.files <==> n in d.names)
  }

  function Path(name: string): string {
    DataDir + name
  }

  /** The name a path designates inside the data directory, if it lies there. */
  function NameOf(path: string): (r: Option<string>)
    ensures r.Some? <==> StartsWith(path, DataDir)
    ensures r.Some? ==> Path(r.value) == path
  {
    if StartsWith(path, DataDir) then Some(path[|DataDir|..]) else None
  }

  lemma NameOfPath(name: string)
    ensures NameOf(Path(name)) == Some(name)
  {
    assert StartsWith(Path(name), DataDir);
    assert Path(name)[|DataDir|..] == name;
  }

  /** `os.path.exists(path)` */
  predicate Exists(d: Directory, path: string) {
    NameOf(path).Some? && NameOf(path).value in d.files
  }

  /** `os.stat(path)`: the file, or nothing when the call would raise. */
  function Stat(d: Directory, path: string): (r: Option<File>)
    ensures r.Some? <==> Exists(d, path)
  {
    if Exists(d, path) then Some(d.files[NameOf(path).value]) else None
  }

  /** Opening `name` for writing and writing `f`: a new name joins the end
      of the listing, an existing one is overwritten in place. */
  function Put(d: Directory, name: string, f: File): Directory {
    if name in d.files then Directory(d.names, d.files[name := f])
    else Directory(d.names + [name], d.files[name := f])
  }

  /** A file just written is found at its path. */
  lemma PutStat(d: Directory, name: string, f: File)
    ensures Exists(Put(d, name, f), Path(name))
    ensures Stat(Put(d, name, f), Path(name)) == Some(f)
  {
    NameOfPath(name);
  }

  /** Writing one file leaves every other name as it was. */
  lemma PutElsewhere(d: Directory, name: string, f: File, other: string)
    requires other != name
    ensures other in Put(d, name, f).files <==> other in d.files
    ensures other in d.files ==> Put(d, name, f).files[other] == d.files[other]
    ensures other in Put(d, name, f).names <==> other in d.names
  {
  }

  function RemoveName(names: seq<string>, name: string): (r: seq<string>)
    ensures forall n :: n in r <==> n in names && n != name
  {
    if names == [] then []
    else if names[0] == name then RemoveName(names[1..], name)
    else [names[0]] + RemoveName(names[1..], name)
  }

  /** `os.remove` of an existing name. */
  function Remove(d: Directory, name: string): Directory {
    Directory(RemoveName(d.names, name), d.files - {name})
  }

  /** `os.remove(path)` inside a `try` that swallows the error: a path that
      does not exist leaves the directory as it is. */
  function RemovePath(d: Directory, path: string): Directory {
    if Exists(d, path) then Remove(d, NameOf(path).value) else d
  }

  lemma {:induction false} RemoveNameDistinct(names: seq<string>, name: string)
    requires Distinct(names)
    ensures Distinct(RemoveName(names, name))
    decreases |names|
  {
    if names != [] {
      assert Distinct(names[1..]) by {
        forall i, j | 0 <= i < j < |names[1..]|
          ensures names[1..][i] != names[1..][j]
        {
          assert names[1..][i] == names[i + 1] && names[1..][j] == names[j + 1];
        }
      }
      RemoveNameDistinct(names[1..], name);
      if names[0] != name {
        var rest := RemoveName(names[1..], name);
        assert names[0] !in names[1..];
        assert names[0] !in rest;
        var r := [names[0]] + rest;
        forall i, j | 0 <= i < j < |r|
          ensures r[i] != r[j]
        {
          if i == 0 {
            assert r[j] == rest[j - 1];
          } else {
            assert r[i] == rest[i - 1] && r[j] == rest[j - 1];
          }
        }
      }
    }
  }

  /** Writing keeps the listing faithful to the files; the new file is the
      only change. */
  lemma PutValid(d: Directory, name: string, f: File)
    requires Valid(d)
    ensures Valid(Put(d, name, f))
    ensures name in Put(d, name, f).names
    ensures forall n :: n != name ==> (n in Put(d, name, f).files <==> n in d.files)
  {
    if name !in d.files {
      var s := d.names + [name];
      forall i, j | 0 <= i < j < |s|
        ensures s[i] != s[j]
      {
        if j == |d.names| {
          assert s[i] in d.names;
        }
      }
    }
  }

  /** Removing keeps the listing faithful to the files; the removed name is
      the only one gone. */
  lemma RemoveValid(d: Directory, name: string)
    requires Valid(d)
    ensures Valid(Remove(d, name))
    ensures name !in Remove(d, name).names
  {
    RemoveNameDistinct(d.names, name);
  }

  /** The name of the first entry of the listing that starts with `prefix`
      (the first line `find -name "<prefix>*"` prints). */
  function FirstWithPrefix(names: seq<string>, prefix: string): (r: Option<nat>)
    ensures r.None? <==> forall j :: 0 <= j < |names| ==> !StartsWith(names[j], prefix)
    ensures r.Some? ==> r.value < |names| && StartsWith(names[r.value], prefix)
                        && forall j :: 0 <= j < r.value ==> !StartsWith(names[j], prefix)
  {
    if names == [] then None
    else if StartsWith(names[0], prefix) then Some(0)
    else match FirstWithPrefix(names[1..], prefix)
      case None => None
      case Some(i) => Some(i + 1)
  }

  /** A new last entry is found only when nothing before it matches. */
  lemma FirstWithPrefixAppend(names: seq<string>, name: string, prefix: string)
    requires forall j :: 0 <= j < |names| ==> !StartsWith(names[j], prefix)
    ensures FirstWithPrefix(names + [name], prefix) ==
            if StartsWith(name, prefix) then Some(|names|) else None
  {
    var s := names + [name];
    assert forall j :: 0 <= j < |names| ==> s[j] == names[j];
    assert s[|names|] == name;
  }
}
