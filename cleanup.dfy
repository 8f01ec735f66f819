/** The reaper that runs periodically over the data directory: when the
    directory has grown past its cap every visible file is wiped; otherwise
    each file whose name carries the `.expires.` marker is looked at in
    listing order, and plain pastes and the images of albums whose age
    exceeds their lifetime are deleted. An exception that escapes ends the
    sweep early. The specification functions describe one run on a
    directory value; the methods perform it on a `Pastes` store. */
module Cleanup {
  import opened Wrappers
  import opened Text
  import opened Json
  import opened Fs
  import opened Paste
  import Settings

  // ---------------------------------------------------------------------
  // The size cap
  // ---------------------------------------------------------------------

  /** The sizes of the listed files added up. */
  function SizeOf(d: Directory, names: seq<string>): (r: nat)
    ensures names == [] ==> r == 0
    ensures forall j :: 0 <= j < |names| && names[j] in d.files ==> |d.files[names[j]].data| <= r
  {
    if names == [] then 0
    else (if names[0] in d.files then |d.files[names[0]].data| else 0) + SizeOf(d, names[1..])
  }

  /** `sum(f.stat().st_size for f in Path('data').glob('*') if f.is_file())`:
      the glob of `pathlib` also matches names that begin with a dot. */
  function DirSize(d: Directory): (r: nat)
    ensures forall j :: 0 <= j < |d.names| && d.names[j] in d.files ==> |d.files[d.names[j]].data| <= r
  {
    SizeOf(d, d.names)
  }

  /** A name the shell glob `*` does not match. */
  predicate Hidden(name: string) {
    |name| > 0 && name[0] == '.'
  }

  function HiddenNames(names: seq<string>): (r: seq<string>)
    ensures forall n :: n in r <==> n in names && Hidden(n)
    ensures |r| <= |names|
  {
    if names == [] then []
    else if Hidden(names[0]) then [names[0]] + HiddenNames(names[1..])
    else HiddenNames(names[1..])
  }

  /** The shell command `rm` on the glob `*` of the data directory: every
      file whose name does not begin with a dot goes. */
  function Wipe(d: Directory): (r: Directory)
    ensures forall n :: n in r.files <==> n in d.files && Hidden(n)
    ensures forall n :: n in r.files ==> r.files[n] == d.files[n]
    ensures forall n :: n in r.names <==> n in d.names && Hidden(n)
  {
    Directory(HiddenNames(d.names), map n | n in d.files && Hidden(n) :: d.files[n])
  }

  lemma {:induction false} HiddenNamesDistinct(names: seq<string>)
    requires Distinct(names)
    ensures Distinct(HiddenNames(names))
    decreases |names|
  {
    if names != [] {
      assert Distinct(names[1..]) by {
        forall i, j | 0 <= i < j < |names[1..]|
          ensures names[1..][i] != names[1..][j]
        {
          assert names[1..][i] == names[i + 1] && names[1..][j] == names[j + 1];
        }
      }
      HiddenNamesDistinct(names[1..]);
      if Hidden(names[0]) {
        var rest := HiddenNames(names[1..]);
        assert names[0] !in names[1..];
        assert names[0] !in rest;
        var r := [names[0]] + rest;
        forall i, j | 0 <= i < j < |r|
          ensures r[i] != r[j]
        {
          if i == 0 {
            assert r[j] == rest[j - 1];
          } else {
            assert r[i] == rest[i - 1] && r[j] == rest[j - 1];
          }
        }
      }
    }
  }

  /** The wipe keeps the listing faithful to the files. */
  lemma WipeValid(d: Directory)
    requires Valid(d)
    ensures Valid(Wipe(d))
  {
    HiddenNamesDistinct(d.names);
  }

  // ---------------------------------------------------------------------
  // One candidate
  // ---------------------------------------------------------------------

  /** `find data -name "*.expires.*"`: the paths of the marked names, in
      listing order. */
  function Candidates(d: Directory): (r: seq<string>)
    ensures |r| <= |d.names|
    ensures forall n :: Path(n) in r <==> n in d.names && Expiring(n)
    ensures forall j :: 0 <= j < |r| ==> NameOf(r[j]).Some? && Expiring(NameOf(r[j]).value)
  {
    CandidatesOf(d.names)
  }

  function CandidatesOf(names: seq<string>): (r: seq<string>)
    ensures |r| <= |names|
    ensures forall n :: Path(n) in r <==> n in names && Expiring(n)
    ensures forall j :: 0 <= j < |r| ==> NameOf(r[j]).Some? && Expiring(NameOf(r[j]).value)
  {
    if names == [] then []
    else
      var rest := CandidatesOf(names[1..]);
      NameOfPath(names[0]);
      PathInjective(names[0]);
      if Expiring(names[0]) then [Path(names[0])] + rest else rest
  }

  lemma PathInjective(name: string)
    ensures forall n :: Path(n) == Path(name) ==> n == name
  {
    forall n | Path(n) == Path(name)
      ensures n == name
    {
      NameOfPath(n);
      NameOfPath(name);
    }
  }

  /** What `try_remove` did: deleted the file (returned `True`), left it
      (returned `None`), or raised. */
  datatype Removal = Removed | Kept | Failed

  /** `try_remove(path, expires)`: a path that cannot be stat'ed raises, an
      `expires` that is not a number raises when compared; otherwise the
      file is deleted exactly when its age is strictly greater than
      `expires`. */
  function TryRemoveSpec(d: Directory, path: string, expires: Value, now: int): (r: (Directory, Removal))
    ensures r.1 == Failed <==> !Exists(d, path) || AsInt(expires).None?
    ensures r.1 == Removed <==> Exists(d, path) && AsInt(expires).Some?
                                && now - Stat(d, path).value.mtime > AsInt(expires).value
    ensures r.0 == if r.1 == Removed then RemovePath(d, path) else d
  {
    match Stat(d, path)
    case None => (d, Failed)
    case Some(f) =>
      match AsInt(expires)
      case None => (d, Failed)
      case Some(e) => if now - f.mtime > e then (RemovePath(d, path), Removed) else (d, Kept)
  }

  /** `d2` is `d` with some files deleted and none written or changed. */
  predicate OnlyDeletes(d: Directory, d2: Directory) {
    forall n :: n in d2.files ==> n in d.files && d2.files[n] == d.files[n]
  }

  /** One turn of the album loop, `try_remove(image['filepath'],
      image['expiration'])`: an entry that is not an object, lacks either
      key or whose path is not a string fails. */
  function ImageEntry(d: Directory, image: Value, now: int): (r: (Directory, Removal))
    ensures !image.Obj? ==> r == (d, Failed)
    ensures r.1 != Removed ==> r.0 == d
    ensures OnlyDeletes(d, r.0)
  {
    if !image.Obj? then (d, Failed)
    else
      var path := Get(image.fields, "filepath");
      var expires := Get(image.fields, "expiration");
      if path.None? || expires.None? || !path.value.Str? then (d, Failed)
      else TryRemoveSpec(d, path.value.s, expires.value, now)
  }

  /** The album loop from a given flag: a failing turn leaves `deleted` as
      it was, any other turn overwrites it. */
  function AlbumImages(d: Directory, items: seq<Value>, deleted: bool, now: int): (r: (Directory, bool))
    ensures OnlyDeletes(d, r.0)
    decreases |items|
  {
    if items == [] then (d, deleted)
    else
      var (d1, r) := ImageEntry(d, items[0], now);
      AlbumImages(d1, items[1..], if r == Failed then deleted else r == Removed, now)
  }

  /** `for image in album` on a value Python cannot iterate. */
  function NotIterable(v: Value): string {
    "'" + TypeName(v) + "' object is not iterable"
  }

  /** The album branch: a missing file raises, an unreadable or falsy album
      is skipped, a list is swept and the album file removed when the flag
      ends up set. A dict or a string is iterated too, but every key or
      character fails the lookup, so nothing happens; a truthy number
      cannot be iterated and the error escapes. */
  function AlbumStep(d: Directory, path: string, now: int): (r: (Directory, Option<string>))
    ensures r.1.Some? ==> r.0 == d
    ensures OnlyDeletes(d, r.0)
  {
    match ReadAlbumPath(d, path)
    case Raised(m) => (d, Some(m))
    case Nothing => (d, None)
    case Got(album) =>
      if !Truthy(album) then (d, None)
      else match album
        case Arr(items) =>
          var (d1, deleted) := AlbumImages(d, items, false, now);
          (if deleted then RemovePath(d1, path) else d1, None)
        case Obj(_) => (d, None)
        case Str(_) => (d, None)
        case _ => (d, Some(NotIterable(album)))
  }

  const NoSuchFile: string := "No such file or directory"

  /** The plain branch: a missing file or a header that is not an object
      raises, an unreadable paste or one whose expiration is not a positive
      integer is skipped, and the rest go through `try_remove`, outside any
      `try`. */
  function PlainStep(d: Directory, path: string, now: int): (r: (Directory, Option<string>))
    ensures r.1.Some? ==> r.0 == d
    ensures OnlyDeletes(d, r.0)
  {
    match ReadPlainPath(d, path)
    case Raised(m) => (d, Some(m))
    case Nothing => (d, None)
    case Got(paste) =>
      match AsInt(paste.expiration)
      case None => (d, None)
      case Some(e) =>
        if e <= 0 then (d, None)
        else
          var (d1, r) := TryRemoveSpec(d, path, Int(e), now);
          // The reader has just found the file and `e` is an int, so `Failed`
          // cannot occur; the branch mirrors the unguarded call.
          (d1, if r == Failed then Some(NoSuchFile) else None)
  }

  /** One path of the `find` output; the error is the exception that escapes. */
  function CandidateStep(d: Directory, path: string, now: int): (r: (Directory, Option<string>))
    ensures EndsWith(path, ".png") ==> r == (d, None)
    ensures r.1.Some? ==> r.0 == d
    ensures OnlyDeletes(d, r.0)
  {
    if EndsWith(path, ".png") then (d, None)
    else if EndsWith(path, ".album") then AlbumStep(d, path, now)
    else PlainStep(d, path, now)
  }

  // ---------------------------------------------------------------------
  // The whole run
  // ---------------------------------------------------------------------

  /** How a run of the reaper ended. */
  datatype Outcome = Wiped | Swept | Aborted(message: string)

  /** The candidates in order, until one raises; a sweep never wipes. */
  function Sweep(d: Directory, paths: seq<string>, now: int): (r: (Directory, Outcome))
    ensures r.1 != Wiped
    ensures OnlyDeletes(d, r.0)
    decreases |paths|
  {
    if paths == [] then (d, Swept)
    else
      var (d1, e) := CandidateStep(d, paths[0], now);
      if e.Some? then (d1, Aborted(e.value)) else Sweep(d1, paths[1..], now)
  }

  /** `Cleanup.task` */
  function TaskSpec(d: Directory, now: int): (r: (Directory, Outcome))
    ensures r.1 == Wiped <==> DirSize(d) > Settings.MaxSizeDataDir
    ensures OnlyDeletes(d, r.0)
  {
    if DirSize(d) > Settings.MaxSizeDataDir then (Wipe(d), Wiped)
    else Sweep(d, Candidates(d), now)
  }

  // ---------------------------------------------------------------------
  // Properties
  // ---------------------------------------------------------------------

  /** `d2` is `d` with some files deleted and none written. */
  ghost predicate Shrinks(d: Directory, d2: Directory) {
    OnlyDeletes(d, d2) && (Valid(d) ==> Valid(d2))
  }

  /** The file under `name`, if any, is still there and unchanged. */
  ghost predicate Keeps(d: Directory, d2: Directory, name: string) {
    name in d.files ==> name in d2.files && d2.files[name] == d.files[name]
  }

  /** No object entry of `items` has `path` as its `filepath`. */
  predicate NamesNot(items: seq<Value>, path: string) {
    forall i :: 0 <= i < |items| && items[i].Obj? ==> Get(items[i].fields, "filepath") != Some(Str(path))
  }

  /** The file's bytes decode to a list with an object entry whose
      `filepath` is `path`: an album that may delete `path`. */
  predicate ListsPath(data: seq<byte>, path: string) {
    match DecodeBytes(data)
    case Some(Arr(items)) => !NamesNot(items, path)
    case _ => false
  }

  /** No file of the directory is an album naming `path`. */
  ghost predicate Unlisted(d: Directory, path: string) {
    forall a :: a in d.files ==> !ListsPath(d.files[a].data, path)
  }

  lemma RemovePathShrinks(d: Directory, path: string)
    ensures Shrinks(d, RemovePath(d, path))
    ensures forall n :: Path(n) != path ==> Keeps(d, RemovePath(d, path), n)
  {
    if Exists(d, path) {
      var name := NameOf(path).value;
      if Valid(d) {
        RemoveValid(d, name);
      }
    }
  }

  lemma ImageEntryShrinks(d: Directory, image: Value, now: int, n: string)
    ensures Shrinks(d, ImageEntry(d, image, now).0)
    ensures image.Obj? && Get(image.fields, "filepath") != Some(Str(Path(n))) ==>
            Keeps(d, ImageEntry(d, image, now).0, n)
  {
    if image.Obj? {
      var path := Get(image.fields, "filepath");
      if path.Some? && path.value.Str? {
        RemovePathShrinks(d, path.value.s);
      }
    }
  }

  lemma {:induction false} AlbumImagesShrinks(d: Directory, items: seq<Value>, deleted: bool, now: int, n: string)
    ensures Shrinks(d, AlbumImages(d, items, deleted, now).0)
    ensures NamesNot(items, Path(n)) ==> Keeps(d, AlbumImages(d, items, deleted, now).0, n)
    decreases |items|
  {
    if items != [] {
      var (d1, r) := ImageEntry(d, items[0], now);
      ImageEntryShrinks(d, items[0], now, n);
      var f := if r == Failed then deleted else r == Removed;
      AlbumImagesShrinks(d1, items[1..], f, now, n);
      if NamesNot(items, Path(n)) {
        assert forall i :: 0 <= i < |items[1..]| ==> items[1..][i] == items[i + 1];
        if !items[0].Obj? {
          assert d1 == d;
        }
      }
    }
  }

  lemma AlbumStepShrinks(d: Directory, path: string, now: int, n: string)
    requires Path(n) != path
    requires Exists(d, path) ==> !ListsPath(Stat(d, path).value.data, Path(n))
    ensures Shrinks(d, AlbumStep(d, path, now).0)
    ensures Keeps(d, AlbumStep(d, path, now).0, n)
  {
    match ReadAlbumPath(d, path)
    case Raised(_) =>
    case Nothing =>
    case Got(album) =>
      if Truthy(album) && album.Arr? {
        var items := album.items;
        var (d1, deleted) := AlbumImages(d, items, false, now);
        AlbumImagesShrinks(d, items, false, now, n);
        RemovePathShrinks(d1, path);
      }
  }

  /** The plain branch deletes its own path or nothing. */
  lemma PlainStepEffect(d: Directory, path: string, now: int)
    ensures PlainStep(d, path, now).0 == d || PlainStep(d, path, now).0 == RemovePath(d, path)
  {
    match ReadPlainPath(d, path)
    case Raised(_) =>
    case Nothing =>
    case Got(paste) =>
      var e := AsInt(paste.expiration);
      if e.Some? && e.value > 0 {
        var (d1, r) := TryRemoveSpec(d, path, Int(e.value), now);
        assert d1 == d || d1 == RemovePath(d, path);
      }
  }

  lemma PlainStepShrinks(d: Directory, path: string, now: int)
    ensures Shrinks(d, PlainStep(d, path, now).0)
    ensures forall n :: Path(n) != path ==> Keeps(d, PlainStep(d, path, now).0, n)
  {
    PlainStepEffect(d, path, now);
    RemovePathShrinks(d, path);
  }

  lemma CandidateStepShrinks(d: Directory, path: string, now: int, n: string)
    requires Path(n) != path
    requires Exists(d, path) ==> !ListsPath(Stat(d, path).value.data, Path(n))
    ensures Shrinks(d, CandidateStep(d, path, now).0)
    ensures Keeps(d, CandidateStep(d, path, now).0, n)
  {
    if !EndsWith(path, ".png") {
      if EndsWith(path, ".album") {
        AlbumStepShrinks(d, path, now, n);
      } else {
        PlainStepShrinks(d, path, now);
      }
    }
  }

  lemma ShrinksUnlisted(d: Directory, d2: Directory, path: string)
    requires Shrinks(d, d2) && Unlisted(d, path)
    ensures Unlisted(d2, path)
  {
  }

  /** A sweep only deletes, and it spares a file that is not a candidate
      and that no album names. */
  lemma {:induction false} SweepShrinks(d: Directory, paths: seq<string>, now: int, n: string)
    requires forall j :: 0 <= j < |paths| ==> paths[j] != Path(n)
    requires Unlisted(d, Path(n))
    ensures Shrinks(d, Sweep(d, paths, now).0)
    ensures Keeps(d, Sweep(d, paths, now).0, n)
    decreases |paths|
  {
    if paths != [] {
      var (d1, e) := CandidateStep(d, paths[0], now);
      if Exists(d, paths[0]) {
        assert NameOf(paths[0]).value in d.files;
      }
      CandidateStepShrinks(d, paths[0], now, n);
      if e.None? {
        ShrinksUnlisted(d, d1, Path(n));
        SweepShrinks(d1, paths[1..], now, n);
      }
    }
  }

  /** Over the cap the run wipes every visible file and keeps exactly the
      hidden ones, unchanged. */
  lemma TaskOverCap(d: Directory, now: int)
    requires DirSize(d) > Settings.MaxSizeDataDir
    ensures TaskSpec(d, now).1 == Wiped
    ensures forall n :: n in TaskSpec(d, now).0.files <==> n in d.files && Hidden(n)
    ensures Shrinks(d, TaskSpec(d, now).0)
  {
    if Valid(d) {
      WipeValid(d);
    }
  }

  /** Below the cap the run never writes, never wipes, and spares every
      file whose name lacks the `.expires.` marker unless an album names it
      as one of its images. */
  lemma TaskUnderCap(d: Directory, now: int, n: string)
    requires DirSize(d) <= Settings.MaxSizeDataDir
    requires !Expiring(n) && Unlisted(d, Path(n))
    ensures TaskSpec(d, now).1 != Wiped
    ensures Shrinks(d, TaskSpec(d, now).0)
    ensures Keeps(d, TaskSpec(d, now).0, n)
  {
    var paths := Candidates(d);
    forall j | 0 <= j < |paths|
      ensures paths[j] != Path(n)
    {
      NameOfPath(n);
    }
    SweepShrinks(d, paths, now, n);
  }

  /** A plain candidate whose header is JSON but not an object ends the
      whole run: the `.get` error escapes the reader, and no later
      candidate is looked at. */
  lemma NonObjectHeaderAborts(d: Directory, path: string, rest: seq<string>, now: int, v: Value)
    requires !EndsWith(path, ".png") && !EndsWith(path, ".album")
    requires Exists(d, path) && HeaderOf(Stat(d, path).value.data) == Some(v) && !v.Obj?
    ensures Sweep(d, [path] + rest, now) == (d, Aborted(NoGet(v)))
  {
    assert ([path] + rest)[0] == path;
  }

  /** An album file holding a truthy number cannot be iterated: the error
      escapes the album loop, which is outside any `try`, and ends the
      whole run with nothing changed. */
  lemma NonIterableAlbumAborts(d: Directory, path: string, rest: seq<string>, now: int, v: Value)
    requires !EndsWith(path, ".png") && EndsWith(path, ".album")
    requires Exists(d, path) && DecodeBytes(Stat(d, path).value.data) == Some(v)
    requires (v.Int? || v.Bool?) && Truthy(v)
    ensures Sweep(d, [path] + rest, now) == (d, Aborted(NotIterable(v)))
  {
    assert ([path] + rest)[0] == path;
  }

  /** Within the cap, such an album as the first candidate ends the run
      before anything is deleted. */
  lemma TaskAbortsOnNonIterableAlbum(d: Directory, now: int, v: Value)
    requires DirSize(d) <= Settings.MaxSizeDataDir
    requires Candidates(d) != []
    requires !EndsWith(Candidates(d)[0], ".png") && EndsWith(Candidates(d)[0], ".album")
    requires Exists(d, Candidates(d)[0])
    requires DecodeBytes(Stat(d, Candidates(d)[0]).value.data) == Some(v)
    requires (v.Int? || v.Bool?) && Truthy(v)
    ensures TaskSpec(d, now) == (d, Aborted(NotIterable(v)))
  {
    var paths := Candidates(d);
    assert paths == [paths[0]] + paths[1..];
    NonIterableAlbumAborts(d, paths[0], paths[1..], now, v);
  }

  /** Within the cap, such a paste as the first candidate ends the run
      before anything is deleted. */
  lemma TaskAbortsOnNonObjectHeader(d: Directory, now: int, v: Value)
    requires DirSize(d) <= Settings.MaxSizeDataDir
    requires Candidates(d) != []
    requires !EndsWith(Candidates(d)[0], ".png") && !EndsWith(Candidates(d)[0], ".album")
    requires Exists(d, Candidates(d)[0])
    requires HeaderOf(Stat(d, Candidates(d)[0]).value.data) == Some(v) && !v.Obj?
    ensures TaskSpec(d, now) == (d, Aborted(NoGet(v)))
  {
    var paths := Candidates(d);
    assert paths == [paths[0]] + paths[1..];
    NonObjectHeaderAborts(d, paths[0], paths[1..], now, v);
  }

  /** A plain candidate that reads back with a positive expiration is
      deleted exactly when its age is strictly greater than that
      expiration, and nothing escapes. */
  lemma PlainCandidate(d: Directory, name: string, now: int, paste: Plain, e: int)
    requires !EndsWith(Path(name), ".png") && !EndsWith(Path(name), ".album")
    requires ReadPlainPath(d, Path(name)) == Got(paste)
    requires AsInt(paste.expiration) == Some(e) && e > 0
    ensures name in d.files
    ensures CandidateStep(d, Path(name), now) ==
            (if now - d.files[name].mtime > e then Remove(d, name) else d, None)
  {
    NameOfPath(name);
  }

  /** A plain candidate that cannot be read, or whose expiration is not a
      positive integer, is skipped. */
  lemma PlainCandidateSkipped(d: Directory, path: string, now: int)
    requires !EndsWith(path, ".png") && !EndsWith(path, ".album")
    requires ReadPlainPath(d, path) == Nothing
             || (ReadPlainPath(d, path).Got? &&
                 (AsInt(ReadPlainPath(d, path).value.expiration).None? ||
                  AsInt(ReadPlainPath(d, path).value.expiration).value <= 0))
    ensures CandidateStep(d, path, now) == (d, None)
  {
  }

  /** A paste the store has just written with a positive lifetime is a
      candidate, and the reaper deletes it once it is older than that
      lifetime and not before. */
  lemma WrittenPasteReaped(d: Directory, contents: seq<byte>, expiration: int, syntax: Option<string>,
                           uid: string, ip: Option<string>, written: int, now: int)
    requires Valid(d) && DotFree(uid) && expiration > 0
    ensures var name := PlainName(uid, expiration);
            var d2 := Put(d, name, File(FramePlain(PlainHeader(uid, expiration, syntax, ip), contents), written));
            Path(name) in Candidates(d2) &&
            CandidateStep(d2, Path(name), now) ==
              (if now - written > expiration then Remove(d2, name) else d2, None)
  {
    var name := PlainName(uid, expiration);
    var d2 := Put(d, name, File(FramePlain(PlainHeader(uid, expiration, syntax, ip), contents), written));
    StoredNameExpiring(uid, expiration, "paste");
    PutValid(d, name, File(FramePlain(PlainHeader(uid, expiration, syntax, ip), contents), written));
    PlainRoundTrip(d, contents, expiration, syntax, uid, ip, written);
    var p := Path(name);
    assert p[|p| - 1] == 'e';
    PlainCandidate(d2, name, now, Plain(Str(uid), contents, OptStr(syntax), Int(expiration)), expiration);
  }

  /** An entry whose image file cannot be reached: the lookup fails or the
      path it names does not exist. */
  predicate Unreachable(d: Directory, image: Value) {
    !image.Obj?
    || Get(image.fields, "filepath").None?
    || !Get(image.fields, "filepath").value.Str?
    || !Exists(d, Get(image.fields, "filepath").value.s)
  }

  /** When no entry reaches its image, every turn fails, so the flag keeps
      its initial value and nothing is deleted. */
  lemma {:induction false} AlbumImagesUnreachable(d: Directory, items: seq<Value>, deleted: bool, now: int)
    requires forall i :: 0 <= i < |items| ==> Unreachable(d, items[i])
    ensures AlbumImages(d, items, deleted, now) == (d, deleted)
    decreases |items|
  {
    if items != [] {
      assert ImageEntry(d, items[0], now) == (d, Failed);
      assert forall i :: 0 <= i < |items[1..]| ==> items[1..][i] == items[i + 1];
      AlbumImagesUnreachable(d, items[1..], deleted, now);
    }
  }

  /** So an album whose images are all gone is kept. */
  lemma AlbumOfGoneImagesKept(d: Directory, path: string, items: seq<Value>, now: int)
    requires EndsWith(path, ".album") && !EndsWith(path, ".png")
    requires ReadAlbumPath(d, path) == Got(Arr(items))
    requires forall i :: 0 <= i < |items| ==> Unreachable(d, items[i])
    ensures CandidateStep(d, path, now) == (d, None)
  {
    AlbumImagesUnreachable(d, items, false, now);
    if items != [] {
      AlbumCandidate(d, path, items, now);
    }
  }

  /** An unreadable or empty album is skipped. */
  lemma AlbumSkipped(d: Directory, path: string, now: int)
    requires EndsWith(path, ".album") && !EndsWith(path, ".png")
    requires ReadAlbumPath(d, path) == Nothing
             || (ReadAlbumPath(d, path).Got? && !Truthy(ReadAlbumPath(d, path).value))
    ensures CandidateStep(d, path, now) == (d, None)
  {
  }

  /** The flag after one more entry: a failing last turn leaves the flag of
      the turns before it, any other last turn decides it alone. */
  lemma {:induction false} AlbumImagesSnoc(d: Directory, items: seq<Value>, x: Value, deleted: bool, now: int)
    ensures var (d1, f1) := AlbumImages(d, items, deleted, now);
            var (d2, r) := ImageEntry(d1, x, now);
            AlbumImages(d, items + [x], deleted, now) == (d2, if r == Failed then f1 else r == Removed)
    decreases |items|
  {
    if items == [] {
      assert [] + [x] == [x];
    } else {
      var (d1, r) := ImageEntry(d, items[0], now);
      var f := if r == Failed then deleted else r == Removed;
      assert (items + [x])[0] == items[0];
      assert (items + [x])[1..] == items[1..] + [x];
      AlbumImagesSnoc(d1, items[1..], x, f, now);
    }
  }

  /** Whatever the turns before it did, an album whose last entry deletes
      its image is removed, and one whose last entry keeps its image is
      kept. */
  lemma AlbumLastEntryDecides(d: Directory, path: string, items: seq<Value>, x: Value, now: int,
                              before: Directory, after: Directory, r: Removal)
    requires EndsWith(path, ".album") && !EndsWith(path, ".png")
    requires ReadAlbumPath(d, path) == Got(Arr(items + [x]))
    requires AlbumImages(d, items, false, now).0 == before
    requires ImageEntry(before, x, now) == (after, r) && r != Failed
    ensures CandidateStep(d, path, now) == (if r == Removed then RemovePath(after, path) else after, None)
  {
    AlbumImagesSnoc(d, items, x, false, now);
    AlbumCandidate(d, path, items + [x], now);
  }

  /** An album candidate that reads back as a non-empty list is swept by
      the album loop. */
  lemma AlbumCandidate(d: Directory, path: string, items: seq<Value>, now: int)
    requires EndsWith(path, ".album") && !EndsWith(path, ".png")
    requires ReadAlbumPath(d, path) == Got(Arr(items)) && items != []
    ensures var (d1, deleted) := AlbumImages(d, items, false, now);
            CandidateStep(d, path, now) == (if deleted then RemovePath(d1, path) else d1, None)
  {
  }

  // ---------------------------------------------------------------------
  // The reaper on the store
  // ---------------------------------------------------------------------

  /** `Cleanup.try_remove` */
  method TryRemove(store: Pastes, path: string, expires: Value, now: int) returns (r: Removal)
    modifies store
    ensures (store.Dir(), r) == TryRemoveSpec(old(store.Dir()), path, expires, now)
  {
    var st := Stat(store.Dir(), path);
    if st.None? {
      return Failed;
    }
    var e := AsInt(expires);
    if e.None? {
      return Failed;
    }
    if now - st.value.mtime > e.value {
      var _ := store.Remove(path);
      return Removed;
    }
    return Kept;
  }

  /** The body of the album loop, inside its `try`. */
  method TryImage(store: Pastes, image: Value, now: int) returns (r: Removal)
    modifies store
    ensures (store.Dir(), r) == ImageEntry(old(store.Dir()), image, now)
  {
    if !image.Obj? {
      return Failed;
    }
    var path := Get(image.fields, "filepath");
    var expires := Get(image.fields, "expiration");
    if path.None? || expires.None? || !path.value.Str? {
      return Failed;
    }
    r := TryRemove(store, path.value.s, expires.value, now);
  }

  /** The album branch of the sweep. */
  method SweepAlbum(store: Pastes, path: string, now: int) returns (error: Option<string>)
    modifies store
    ensures (store.Dir(), error) == AlbumStep(old(store.Dir()), path, now)
  {
    var album := ReadAlbumPath(store.Dir(), path);
    if album.Raised? {
      return Some(album.message);
    }
    if album.Nothing? || !Truthy(album.value) {
      return None;
    }
    var value := album.value;
    match value
    case Arr(items) =>
      var deleted := false;
      var i := 0;
      while i < |items|
        invariant 0 <= i <= |items|
        invariant AlbumImages(store.Dir(), items[i..], deleted, now)
                  == AlbumImages(old(store.Dir()), items, false, now)
      {
        assert items[i..][1..] == items[i + 1..];
        var r := TryImage(store, items[i], now);
        if r != Failed {
          deleted := r == Removed;
        }
        i := i + 1;
      }
      if deleted {
        var _ := store.Remove(path);
      }
      return None;
    case Obj(_) =>
      return None;
    case Str(_) =>
      return None;
    case _ =>
      return Some(NotIterable(value));
  }

  /** The plain branch of the sweep. */
  method SweepPlain(store: Pastes, path: string, now: int) returns (error: Option<string>)
    modifies store
    ensures (store.Dir(), error) == PlainStep(old(store.Dir()), path, now)
  {
    var paste := ReadPlainPath(store.Dir(), path);
    if paste.Raised? {
      return Some(paste.message);
    }
    if paste.Nothing? {
      return None;
    }
    var expiration := AsInt(paste.value.expiration);
    if expiration.None? || expiration.value <= 0 {
      return None;
    }
    var r := TryRemove(store, path, Int(expiration.value), now);
    // Unreachable `Failed`, as in `PlainStep`: the call is not guarded.
    return if r == Failed then Some(NoSuchFile) else None;
  }

  /** The shell wipe of the data directory. */
  method WipeStore(store: Pastes)
    modifies store
    ensures store.Dir() == Wipe(old(store.Dir()))
  {
    var d := store.Dir();
    store.names := HiddenNames(d.names);
    store.files := map n | n in d.files && Hidden(n) :: d.files[n];
  }

  /** One path of the `find` output. */
  method SweepOne(store: Pastes, path: string, now: int) returns (error: Option<string>)
    modifies store
    ensures (store.Dir(), error) == CandidateStep(old(store.Dir()), path, now)
  {
    if EndsWith(path, ".png") {
      return None;
    } else if EndsWith(path, ".album") {
      error := SweepAlbum(store, path, now);
    } else {
      error := SweepPlain(store, path, now);
    }
  }

  /** The sweep from path `i` on is the step at path `i` followed by the
      sweep from path `i + 1` on. */
  lemma SweepAt(d: Directory, paths: seq<string>, i: nat, now: int)
    requires i < |paths|
    ensures var (d1, e) := CandidateStep(d, paths[i], now);
            Sweep(d, paths[i..], now) == if e.Some? then (d1, Aborted(e.value)) else Sweep(d1, paths[i + 1..], now)
  {
    assert paths[i..][0] == paths[i];
    assert paths[i..][1..] == paths[i + 1..];
  }

  /** `Cleanup.task`: one run of the reaper over the store at time `now`. */
  method Task(store: Pastes, now: int) returns (outcome: Outcome)
    modifies store
    ensures (store.Dir(), outcome) == TaskSpec(old(store.Dir()), now)
  {
    if DirSize(store.Dir()) > Settings.MaxSizeDataDir {
      WipeStore(store);
      return Wiped;
    }
    var paths := Candidates(store.Dir());
    var i := 0;
    while i < |paths|
      invariant 0 <= i <= |paths|
      invariant Sweep(store.Dir(), paths[i..], now) == Sweep(old(store.Dir()), paths, now)
    {
      SweepAt(store.Dir(), paths, i, now);
      var error := SweepOne(store, paths[i], now);
      if error.Some? {
        return Aborted(error.value);
      }
      i := i + 1;
    }
    return Swept;
  }
}
