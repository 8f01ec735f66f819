/** The request-side rules of the web routes: how a plain paste form is
    turned into a stored paste, how uploaded files are filtered into an
    album and which page the client is redirected to, and how a view URL is
    dispatched to the store's readers. Form fields and uploads arrive
    already parsed; HTTP, templates and URL building are not modelled. */
module Routes {
  import opened Wrappers
  import opened Text
  import opened Json
  import opened Fs
  import opened Utils
  import opened Paste

  // ---------------------------------------------------------------------
  // The syntax hint
  // ---------------------------------------------------------------------

  predicate IsAlnum(c: char) {
    '0' <= c <= '9' || 'a' <= c <= 'z' || 'A' <= c <= 'Z'
  }

  /** `re.sub("[^0-9a-zA-Z]+", "", s)`: every character outside the ASCII
      letters and digits is dropped. */
  function KeepAlnum(s: string): (r: string)
    ensures |r| <= |s|
    ensures forall i :: 0 <= i < |r| ==> IsAlnum(r[i])
    ensures forall c :: c in r <==> c in s && IsAlnum(c)
  {
    if s == [] then [] else (if IsAlnum(s[0]) then [s[0]] else []) + KeepAlnum(s[1..])
  }

  /** The filter works character by character: it distributes over
      concatenation. */
  lemma {:induction false} KeepAlnumAppend(a: string, b: string)
    ensures KeepAlnum(a + b) == KeepAlnum(a) + KeepAlnum(b)
    decreases |a|
  {
    if a == [] {
      assert [] + b == b;
    } else {
      assert (a + b)[0] == a[0];
      assert (a + b)[1..] == a[1..] + b;
      KeepAlnumAppend(a[1..], b);
    }
  }

  /** A character outside the ASCII letters and digits is removed. */
  lemma KeepAlnumDrops(c: char)
    requires !IsAlnum(c)
    ensures KeepAlnum([c]) == []
  {
    assert [c][1..] == [];
  }

  /** A string of letters and digits passes unchanged. */
  lemma {:induction false} KeepAlnumKeeps(s: string)
    requires forall i :: 0 <= i < |s| ==> IsAlnum(s[i])
    ensures KeepAlnum(s) == s
    decreases |s|
  {
    if s != [] {
      KeepAlnumKeeps(s[1..]);
    }
  }

  lemma KeepAlnumIdempotent(s: string)
    ensures KeepAlnum(KeepAlnum(s)) == KeepAlnum(s)
  {
    KeepAlnumKeeps(KeepAlnum(s));
  }

  /** The syntax stored with a plain paste: the `paste[lang]` field, or
      `plain` when the form has none, filtered. */
  function SyntaxOf(lang: Option<string>): (r: string)
    ensures forall i :: 0 <= i < |r| ==> IsAlnum(r[i])
  {
    KeepAlnum(lang.GetOr("plain"))
  }

  lemma SyntaxDefault()
    ensures SyntaxOf(None) == "plain"
  {
    KeepAlnumKeeps("plain");
  }

  // ---------------------------------------------------------------------
  // Viewing
  // ---------------------------------------------------------------------

  /** What a view answers: the raw text of a paste, the paste page, the
      album page (for whatever the album reader returned), or an image file
      with its sniffed type and its inline file name. */
  datatype Response =
    | Text(content: seq<byte>)
    | PastePage(paste: Plain)
    | AlbumPage(album: Option<Value>)
    | ImageFile(data: seq<byte>, mimetype: string, disposition: string)

  const NotFound: string := "Paste by that id not found :("

  const BadUrl: string := "bad URL"

  /** `len(v)` on a value that has none. */
  function NoLen(v: Value): string {
    "object of type '" + TypeName(v) + "' has no len()"
  }

  /** `paste_view`: `p` shows a plain paste (raw when asked), `a` an album,
      `i` an image; anything else is a bad URL. */
  function PasteView(d: Directory, kind: string, uid: string, raw: Option<string>,
                     sniff: seq<byte> -> string): (r: Result<Response, string>)
    ensures kind != "p" && kind != "a" && kind != "i" ==> r == Err(BadUrl)
    ensures kind == "p" && FindByUid(d, uid).None? ==> r == Err(NotFound)
    ensures kind == "a" && FindByUid(d, uid).None? ==> r == Ok(AlbumPage(None))
  {
    if kind == "p" then
      match ReadPlainUid(d, uid)
      case Raised(m) => Err(m)
      case Nothing => Err(NotFound)
      case Got(paste) =>
        if raw.Some? && raw.value != "" then Ok(Text(paste.content)) else Ok(PastePage(paste))
    else if kind == "a" then
      match ReadAlbumUid(d, uid)
      case Raised(m) => Err(m)
      case Nothing => Ok(AlbumPage(None))
      case Got(album) => Ok(AlbumPage(Some(album)))
    else if kind == "i" then
      match ReadImageUid(d, uid)
      case Raised(m) => Err(m)
      case Nothing => Err(NoLen(Null))
      case Got(image) => Ok(ImageFile(image, sniff(image), "inline; filename=" + uid + ".png"))
    else Err(BadUrl)
  }

  // ---------------------------------------------------------------------
  // Plain pastes
  // ---------------------------------------------------------------------

  const NoContentPlain: string := "No content"

  /** The lifetime of a plain paste: `paste[expir]`, 0 when absent, clamped. */
  function PlainExpiration(expir: Option<int>): (r: int)
    ensures 1 <= r <= MaxExpiration
  {
    SanitizeExpiration(expir.GetOr(0))
  }

  /** `paste_plain`: an empty body is refused before anything is written;
      otherwise the paste is written under the drawn uid. */
  function PastePlainSpec(d: Directory, body: Option<seq<byte>>, lang: Option<string>, expir: Option<int>,
                          uid: string, ip: Option<string>, now: int): (r: (Directory, Result<string, string>))
    ensures r.1 == Err(NoContentPlain) <==> body.GetOr([]) == []
    ensures r.1.Err? ==> r.0 == d
    ensures r.1.Ok? ==> r.1.value == uid && PlainName(uid, PlainExpiration(expir)) in r.0.files
  {
    var contents := body.GetOr([]);
    if contents == [] then (d, Err(NoContentPlain))
    else
      var expiration := PlainExpiration(expir);
      var header := PlainHeader(uid, expiration, Some(SyntaxOf(lang)), ip);
      (Put(d, PlainName(uid, expiration), File(FramePlain(header, contents), now)), Ok(uid))
  }

  method PastePlain(store: Pastes, body: Option<seq<byte>>, lang: Option<string>, expir: Option<int>,
                    uid: string, ip: Option<string>, now: int) returns (r: Result<string, string>)
    modifies store
    ensures (store.Dir(), r) == PastePlainSpec(old(store.Dir()), body, lang, expir, uid, ip, now)
  {
    var contents := body.GetOr([]);
    var syntax := SyntaxOf(lang);
    var expiration := PlainExpiration(expir);
    if contents == [] {
      return Err(NoContentPlain);
    }
    var written := store.WritePlain(contents, expiration, Some(syntax), uid, ip, now);
    r := Ok(written);
  }

  /** A paste accepted by the route always expires, so the reaper will see
      it, and its view shows it back: the page with the filtered syntax and
      the clamped lifetime, or the raw bytes. */
  lemma PastedPlainViewed(d: Directory, body: Option<seq<byte>>, lang: Option<string>, expir: Option<int>,
                          uid: string, ip: Option<string>, now: int, sniff: seq<byte> -> string)
    requires Valid(d) && FreshUid(d, uid) && DotFree(uid)
    requires body.GetOr([]) != []
    ensures var d2 := PastePlainSpec(d, body, lang, expir, uid, ip, now).0;
            var expiration := PlainExpiration(expir);
            var paste := Plain(Str(uid), body.GetOr([]), Str(SyntaxOf(lang)), Int(expiration));
            Expiring(PlainName(uid, expiration))
            && PasteView(d2, "p", uid, None, sniff) == Ok(PastePage(paste))
            && PasteView(d2, "p", uid, Some("raw"), sniff) == Ok(Text(body.GetOr([])))
  {
    var expiration := PlainExpiration(expir);
    StoredNameExpiring(uid, expiration, "paste");
    PlainFoundAfterWrite(d, body.GetOr([]), expiration, Some(SyntaxOf(lang)), uid, ip, now);
  }

  // ---------------------------------------------------------------------
  // Uploads
  // ---------------------------------------------------------------------

  /** An uploaded file: its client-side name and its bytes. */
  datatype Upload = Upload(filename: string, data: seq<byte>)

  const AllowedExtensions: seq<string> := [".png", ".jpg", ".gif", ".webm"]

  /** `name` ends with one of `exts`. */
  predicate EndsWithAny(name: string, exts: seq<string>) {
    exists i :: 0 <= i < |exts| && EndsWith(name, exts[i])
  }

  predicate Allowed(name: string) {
    EndsWithAny(name, AllowedExtensions)
  }

  /** What the inner loop appends for one file: its bytes once for every
      extension of `exts` its name ends with. */
  function Reads(f: Upload, exts: seq<string>): seq<seq<byte>>
    decreases |exts|
  {
    if exts == [] then []
    else
      var n := |exts| - 1;
      Reads(f, exts[..n]) + (if EndsWith(f.filename, exts[n]) then [f.data] else [])
  }

  /** The inner loop appends at most one copy of a file. */
  lemma ReadsAtMostOne(f: Upload)
    ensures |Reads(f, AllowedExtensions)| <= 1
  {
    ReadsOnce(f);
  }

  /** The images the two loops of `paste_img` collect. */
  function Collect(files: seq<Upload>): (r: seq<seq<byte>>)
    ensures |r| <= |files|
    decreases |files|
  {
    if files == [] then []
    else
      var n := |files| - 1;
      ReadsAtMostOne(files[n]);
      Collect(files[..n]) + Reads(files[n], AllowedExtensions)
  }

  /** The reference filter: the bytes of the files with an allowed
      extension, in upload order. */
  function Kept(files: seq<Upload>): (r: seq<seq<byte>>)
    ensures |r| <= |files|
    ensures r == [] <==> forall i :: 0 <= i < |files| ==> !Allowed(files[i].filename)
    decreases |files|
  {
    if files == [] then []
    else
      var n := |files| - 1;
      var r := Kept(files[..n]) + (if Allowed(files[n].filename) then [files[n].data] else []);
      assert forall i :: 0 <= i < n ==> files[..n][i] == files[i];
      r
  }

  /** Two suffixes of the same string: the shorter is a suffix of the longer. */
  lemma SuffixOfSuffix(s: string, a: string, b: string)
    requires EndsWith(s, a) && EndsWith(s, b) && |a| <= |b|
    ensures EndsWith(b, a)
  {
    assert b[|b| - |a|..] == s[|s| - |a|..];
  }

  /** No allowed extension ends another. */
  lemma ExtensionsUnrelated(i: nat, j: nat)
    requires i < |AllowedExtensions| && j < |AllowedExtensions| && i != j
    ensures !EndsWith(AllowedExtensions[j], AllowedExtensions[i])
  {
  }

  /** So a name ends with at most one of them. */
  lemma ExtensionsExclusive(name: string, i: nat, j: nat)
    requires i < j < |AllowedExtensions|
    requires EndsWith(name, AllowedExtensions[i])
    ensures !EndsWith(name, AllowedExtensions[j])
  {
    var a := AllowedExtensions[i];
    var b := AllowedExtensions[j];
    ExtensionsUnrelated(i, j);
    ExtensionsUnrelated(j, i);
    if EndsWith(name, b) {
      if |a| <= |b| {
        SuffixOfSuffix(name, a, b);
      } else {
        SuffixOfSuffix(name, b, a);
      }
      assert false;
    }
  }

  /** When the name ends with at most one of `exts`, the inner loop reads
      the file once if it ends with any of them and never otherwise. */
  lemma {:induction false} ReadsAtMostOnce(f: Upload, exts: seq<string>)
    requires forall i, j :: 0 <= i < j < |exts| && EndsWith(f.filename, exts[i]) ==> !EndsWith(f.filename, exts[j])
    ensures Reads(f, exts) == if EndsWithAny(f.filename, exts) then [f.data] else []
    decreases |exts|
  {
    if exts != [] {
      var n := |exts| - 1;
      var p := exts[..n];
      assert forall i :: 0 <= i < n ==> p[i] == exts[i];
      ReadsAtMostOnce(f, p);
      if EndsWithAny(f.filename, p) {
        var i :| 0 <= i < n && EndsWith(f.filename, p[i]);
        assert EndsWith(f.filename, exts[i]);
      }
      if EndsWithAny(f.filename, exts) && !EndsWith(f.filename, exts[n]) {
        var i :| 0 <= i < |exts| && EndsWith(f.filename, exts[i]);
        assert EndsWith(f.filename, p[i]);
      }
    }
  }

  /** So the inner loop reads an allowed file once and any other file never. */
  lemma ReadsOnce(f: Upload)
    ensures Reads(f, AllowedExtensions) == if Allowed(f.filename) then [f.data] else []
  {
    forall i, j | 0 <= i < j < |AllowedExtensions| && EndsWith(f.filename, AllowedExtensions[i])
      ensures !EndsWith(f.filename, AllowedExtensions[j])
    {
      ExtensionsExclusive(f.filename, i, j);
    }
    ReadsAtMostOnce(f, AllowedExtensions);
  }

  /** The loops collect exactly the reference filter. */
  lemma {:induction false} CollectKept(files: seq<Upload>)
    ensures Collect(files) == Kept(files)
    decreases |files|
  {
    if files != [] {
      var n := |files| - 1;
      CollectKept(files[..n]);
      ReadsOnce(files[n]);
    }
  }

  /** One more extension adds the file when its name ends with it. */
  lemma ReadsStep(f: Upload, exts: seq<string>, j: nat)
    requires j < |exts|
    ensures Reads(f, exts[..j + 1]) == Reads(f, exts[..j]) + (if EndsWith(f.filename, exts[j]) then [f.data] else [])
  {
    assert exts[..j + 1][..j] == exts[..j];
  }

  /** One more file adds what the inner loop reads from it. */
  lemma CollectStep(files: seq<Upload>, i: nat)
    requires i < |files|
    ensures Collect(files[..i + 1]) == Collect(files[..i]) + Reads(files[i], AllowedExtensions)
  {
    assert files[..i + 1][..i] == files[..i];
  }

  /** The nested loops of `paste_img` over the files and the extensions. */
  method CollectUploads(files: seq<Upload>) returns (images: seq<seq<byte>>)
    ensures images == Collect(files)
  {
    images := [];
    var i := 0;
    while i < |files|
      invariant 0 <= i <= |files|
      invariant images == Collect(files[..i])
    {
      var file := files[i];
      ghost var before := images;
      var j := 0;
      while j < |AllowedExtensions|
        invariant 0 <= j <= |AllowedExtensions|
        invariant images == before + Reads(file, AllowedExtensions[..j])
      {
        ReadsStep(file, AllowedExtensions, j);
        if EndsWith(file.filename, AllowedExtensions[j]) {
          images := images + [file.data];
        }
        j := j + 1;
      }
      assert AllowedExtensions[..j] == AllowedExtensions;
      CollectStep(files, i);
      i := i + 1;
    }
    assert files[..i] == files;
  }

  // ---------------------------------------------------------------------
  // Image uploads
  // ---------------------------------------------------------------------

  /** Where the client is sent: the album view, or the raw view of one image. */
  datatype Redirect = Redirect(kind: string, uid: Value, raw: bool)

  /** The lifetime of an upload: `expiration`, a day when absent, clamped. */
  function ImageExpiration(expir: Option<int>): (r: int)
    ensures 1 <= r <= MaxExpiration
  {
    SanitizeExpiration(expir.GetOr(DefaultExpiration))
  }

  /** The number of distinct keys of a decoded object. */
  function KeyCount(fields: seq<Field>): nat {
    |set i | 0 <= i < |fields| :: fields[i].key|
  }

  /** Python's `len(v)`. */
  function Len(v: Value): Result<nat, string> {
    match v
    case Arr(items) => Ok(|items|)
    case Str(s) => Ok(|s|)
    case Obj(fields) => Ok(KeyCount(fields))
    case _ => Err(NoLen(v))
  }

  /** Python's `v[0]`. */
  function First(v: Value): Result<Value, string> {
    match v
    case Arr(items) => if items == [] then Err(IndexOutOfRange) else Ok(items[0])
    case Str(s) => if s == [] then Err("string index out of range") else Ok(Str([s[0]]))
    case Obj(_) => Err("0")
    case _ => Err("'" + TypeName(v) + "' object is not subscriptable")
  }

  /** Python's `v[key]` for a string key. */
  function Subscript(v: Value, key: string): Result<Value, string> {
    match v
    case Obj(fields) =>
      (match Get(fields, key)
       case Some(x) => Ok(x)
       case None => Err("'" + key + "'"))
    case Arr(_) => Err("list indices must be integers or slices, not str")
    case Str(_) => Err("string indices must be integers")
    case _ => Err("'" + TypeName(v) + "' object is not subscriptable")
  }

  /** The redirect chosen from what the album reader returned: the album
      view for more than one image, else the raw view of the first one. */
  function RedirectFor(album: Read<Value>, albumUid: string): (r: Result<Redirect, string>)
    ensures album.Raised? ==> r == Err(album.message)
    ensures album.Nothing? ==> r == Err(NoLen(Null))
    ensures r.Ok? ==> album.Got?
    ensures album.Got? && album.value.Arr? && |album.value.items| > 1 ==> r == Ok(Redirect("a", Str(albumUid), false))
  {
    match album
    case Raised(m) => Err(m)
    case Nothing => Err(NoLen(Null))
    case Got(v) =>
      match Len(v)
      case Err(e) => Err(e)
      case Ok(n) =>
        if n > 1 then Ok(Redirect("a", Str(albumUid), false))
        else match First(v)
          case Err(e) => Err(e)
          case Ok(first) =>
            match Subscript(first, "uid")
            case Err(e) => Err(e)
            case Ok(uid) => Ok(Redirect("i", uid, true))
  }

  /** `paste_img`: no files, or none with an allowed extension, raise
      `no content` before anything is written; otherwise the album is
      written and read back to choose the redirect. `uids` are the uids
      drawn for the images, in order. */
  function PasteImgSpec(d: Directory, files: seq<Upload>, expir: Option<int>, uids: seq<string>, albumUid: string,
                        ip: Option<string>, im: Imaging, now: int): (r: (Directory, Result<Redirect, string>))
    requires |uids| == |files|
    ensures files == [] || Kept(files) == [] ==> r == (d, Err(NoContent))
  {
    if files == [] then (d, Err(NoContent))
    else
      var images := Kept(files);
      if images == [] then (d, Err(NoContent))
      else
        var (d1, written) := WriteAlbumSpec(d, images, uids[..|images|], albumUid, ImageExpiration(expir), ip, im, now);
        if written.Err? then (d1, Err(written.error))
        else (d1, RedirectFor(ReadAlbumUid(d1, albumUid), albumUid))
  }

  method PasteImg(store: Pastes, files: seq<Upload>, expir: Option<int>, uids: seq<string>, albumUid: string,
                  ip: Option<string>, im: Imaging, now: int) returns (r: Result<Redirect, string>)
    requires |uids| == |files|
    modifies store
    ensures (store.Dir(), r) == PasteImgSpec(old(store.Dir()), files, expir, uids, albumUid, ip, im, now)
  {
    var expiration := ImageExpiration(expir);
    if files == [] {
      return Err(NoContent);
    }
    var images := CollectUploads(files);
    CollectKept(files);
    if images == [] {
      return Err(NoContent);
    }
    var written := store.WriteAlbum(images, uids[..|images|], albumUid, expiration, ip, im, now);
    if written.Err? {
      return Err(written.error);
    }
    r := RedirectFor(ReadAlbumUid(store.Dir(), written.value), albumUid);
  }

  // ---------------------------------------------------------------------
  // The redirect of a fresh album
  // ---------------------------------------------------------------------

  /** The stored name of an image begins with `<album uid>.` only when the
      two uids are the same. */
  lemma ImageNamePrefix(uid: string, albumUid: string)
    requires DotFree(uid) && DotFree(albumUid)
    requires StartsWith(ImageName(uid), albumUid + ".")
    ensures uid == albumUid
  {
    var n := ImageName(uid);
    var k := |albumUid|;
    assert n[k] == '.';
    assert n[..k] == albumUid && n[..|uid|] == uid;
  }

  /** Writing images lists no name besides the old ones and the images'. */
  lemma {:induction false} WriteImagesNames(d: Directory, images: seq<seq<byte>>, uids: seq<string>, expiration: int,
                                           ip: Option<string>, im: Imaging, now: int, n: string)
    requires |uids| == |images|
    requires n in WriteImages(d, images, uids, expiration, ip, im, now).0.names
    ensures n in d.names || exists i :: 0 <= i < |uids| && n == ImageName(uids[i])
    decreases |images|
  {
    if images != [] {
      var (d1, r1) := WriteImageSpec(d, images[0], expiration, uids[0], ip, im, now);
      if r1.Ok? && n !in d1.names {
        WriteImagesNames(d1, images[1..], uids[1..], expiration, ip, im, now, n);
        var i :| 0 <= i < |uids[1..]| && n == ImageName(uids[1..][i]);
        assert n == ImageName(uids[i + 1]);
      } else if r1.Ok? && n !in d.names {
        assert n == ImageName(uids[0]);
      }
    }
  }

  /** A uid that no stored name and no image of the album uses is still
      fresh once the images are written. */
  lemma FreshAfterImages(d: Directory, images: seq<seq<byte>>, uids: seq<string>, expiration: int,
                         ip: Option<string>, im: Imaging, now: int, albumUid: string)
    requires |uids| == |images| && FreshUid(d, albumUid) && DotFree(albumUid)
    requires forall i :: 0 <= i < |uids| ==> DotFree(uids[i]) && uids[i] != albumUid
    ensures FreshUid(WriteImages(d, images, uids, expiration, ip, im, now).0, albumUid)
  {
    var d1 := WriteImages(d, images, uids, expiration, ip, im, now).0;
    forall j | 0 <= j < |d1.names|
      ensures !StartsWith(d1.names[j], albumUid + ".")
    {
      var n := d1.names[j];
      WriteImagesNames(d, images, uids, expiration, ip, im, now, n);
      if n in d.names {
        var k :| 0 <= k < |d.names| && d.names[k] == n;
      } else {
        var i :| 0 <= i < |uids| && n == ImageName(uids[i]);
        if StartsWith(n, albumUid + ".") {
          ImageNamePrefix(uids[i], albumUid);
        }
      }
    }
  }

  /** The uid recorded in an image's metadata. */
  lemma MetaUid(uid: string, mime: string, expiration: int, ip: Option<string>)
    ensures Subscript(ImageMeta(uid, mime, expiration, ip), "uid") == Ok(Str(uid))
  {
    GetLast(ImageMeta(uid, mime, expiration, ip).fields, 5);
  }

  /** Once the album is written, looking up its uid finds it and reads
      back the list of the images' metadata. */
  lemma FreshAlbumRead(d: Directory, images: seq<seq<byte>>, uids: seq<string>, albumUid: string,
                       expiration: int, ip: Option<string>, im: Imaging, now: int)
    requires |uids| == |images| && Valid(d) && FreshUid(d, albumUid) && DotFree(albumUid)
    requires forall i :: 0 <= i < |uids| ==> DotFree(uids[i]) && uids[i] != albumUid
    requires WriteAlbumSpec(d, images, uids, albumUid, expiration, ip, im, now).1.Ok?
    ensures exists metas: seq<Value> ::
              |metas| == |images| &&
              (forall i :: 0 <= i < |images| ==> metas[i] == ImageMeta(uids[i], im.sniff(images[i]), expiration, ip)) &&
              ReadAlbumUid(WriteAlbumSpec(d, images, uids, albumUid, expiration, ip, im, now).0, albumUid) == Got(Arr(metas))
  {
    var d1 := WriteImages(d, images, uids, expiration, ip, im, now).0;
    var name := AlbumName(albumUid, expiration);
    FreshAfterImages(d, images, uids, expiration, ip, im, now, albumUid);
    WriteImagesValid(d, images, uids, expiration, ip, im, now);
    assert StartsWith(name, albumUid + ".");
    assert name !in d1.names;
    FirstWithPrefixAppend(d1.names, name, albumUid + ".");
    AlbumWritten(d, images, uids, albumUid, expiration, ip, im, now);
  }

  /** The redirect for an album that reads back as a list of image
      metadata: the album view for more than one image, the raw view of the
      first image otherwise. */
  lemma RedirectForAlbum(metas: seq<Value>, albumUid: string, uid: string, mime: string,
                         expiration: int, ip: Option<string>)
    requires metas != [] && metas[0] == ImageMeta(uid, mime, expiration, ip)
    ensures RedirectFor(Got(Arr(metas)), albumUid) ==
            if |metas| > 1 then Ok(Redirect("a", Str(albumUid), false)) else Ok(Redirect("i", Str(uid), true))
  {
    MetaUid(uid, mime, expiration, ip);
  }

  /** For uploads the store accepts, with freshly drawn uids, the client is
      sent to the album when more than one file passed the filter and to
      the raw first image otherwise. */
  lemma PastedImagesRedirect(d: Directory, files: seq<Upload>, expir: Option<int>, uids: seq<string>,
                             albumUid: string, ip: Option<string>, im: Imaging, now: int)
    requires |uids| == |files| && Valid(d) && FreshUid(d, albumUid) && DotFree(albumUid)
    requires forall i :: 0 <= i < |uids| ==> DotFree(uids[i]) && uids[i] != albumUid
    requires Kept(files) != []
    requires WriteImages(d, Kept(files), uids[..|Kept(files)|], ImageExpiration(expir), ip, im, now).1.Ok?
    ensures PasteImgSpec(d, files, expir, uids, albumUid, ip, im, now).1 ==
            if |Kept(files)| > 1 then Ok(Redirect("a", Str(albumUid), false))
            else Ok(Redirect("i", Str(uids[0]), true))
  {
    var images := Kept(files);
    var us := uids[..|images|];
    var e := ImageExpiration(expir);
    var (d1, written) := WriteAlbumSpec(d, images, us, albumUid, e, ip, im, now);
    assert written.Ok?;
    assert PasteImgSpec(d, files, expir, uids, albumUid, ip, im, now).1 == RedirectFor(ReadAlbumUid(d1, albumUid), albumUid);
    FreshAlbumRead(d, images, us, albumUid, e, ip, im, now);
    var metas: seq<Value> :| |metas| == |images|
      && (forall i :: 0 <= i < |images| ==> metas[i] == ImageMeta(us[i], im.sniff(images[i]), e, ip))
      && ReadAlbumUid(d1, albumUid) == Got(Arr(metas));
    RedirectForAlbum(metas, albumUid, us[0], im.sniff(images[0]), e, ip);
  }
}
