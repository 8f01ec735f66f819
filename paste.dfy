/** The paste store: how plain pastes, images and albums are named, framed
    and written into the data directory, and how they are found and read
    back. Writing changes a `Pastes` object that holds the directory;
    reading is a function of the directory. The uid, the client address, the
    clock and the imaging oracles are parameters. */
module Paste {
  import opened Wrappers
  import opened Text
  import opened Json
  import opened Fs
  import opened Utils

  // ---------------------------------------------------------------------
  // Names
  // ---------------------------------------------------------------------

  /** `f"{uid}.{'expires.' if expiration > 0 else ''}{kind}"` */
  function StoredName(uid: string, expiration: int, kind: string): string {
    uid + "." + (if expiration > 0 then "expires." else "") + kind
  }

  /** A plain paste is found by its uid: its name starts with `<uid>.`. */
  function PlainName(uid: string, expiration: int): (r: string)
    ensures StartsWith(r, uid + ".") && EndsWith(r, ".paste")
  {
    StoredName(uid, expiration, "paste")
  }

  function AlbumName(uid: string, expiration: int): (r: string)
    ensures StartsWith(r, uid + ".") && EndsWith(r, ".album")
  {
    StoredName(uid, expiration, "album")
  }

  /** Images are stored as `<uid>.png` whatever their format and lifetime. */
  function ImageName(uid: string): string {
    uid + ".png"
  }

  /** The names the reaper looks at: `find -name "*.expires.*"`. */
  predicate Expiring(name: string) {
    IsInfix(".expires.", name)
  }

  /** A uid as `uuid4` produces it holds no dot, so the dot after it is the
      first one in a stored name. */
  predicate DotFree(uid: string) {
    '.' !in uid
  }

  /** A name gets the `expires.` marker exactly when its paste expires. */
  lemma StoredNameExpiring(uid: string, expiration: int, kind: string)
    requires DotFree(uid) && |kind| < 8
    ensures Expiring(StoredName(uid, expiration, kind)) <==> expiration > 0
  {
    var t := ".expires.";
    if expiration > 0 {
      assert StoredName(uid, expiration, kind) == uid + (t + kind);
      InfixOfTail(t, uid, t + kind);
    } else {
      var tail := "." + kind;
      assert StoredName(uid, expiration, kind) == uid + tail;
      if IsInfix(t, uid + tail) {
        InfixSkipsHead(t, uid, tail, '.');
        InfixNoLonger(t, tail);
      }
    }
  }

  /** An image file never carries the expiry marker, so the reaper never
      picks it up on its own: it goes only through the album that lists it. */
  lemma ImageNameNotExpiring(uid: string)
    requires DotFree(uid)
    ensures !Expiring(ImageName(uid))
  {
    var t := ".expires.";
    if IsInfix(t, uid + ".png") {
      InfixSkipsHead(t, uid, ".png", '.');
      InfixNoLonger(t, ".png");
    }
  }

  // ---------------------------------------------------------------------
  // Plain pastes: a JSON header line, then the contents
  // ---------------------------------------------------------------------

  /** An optional string as JSON: Python's `None` becomes `null`. */
  function OptStr(s: Option<string>): Value {
    if s.None? then Null else Str(s.value)
  }

  /** The header `json.dumps(..., sort_keys=True)` writes, keys in sorted order. */
  function PlainHeader(uid: string, expiration: int, syntax: Option<string>, ip: Option<string>): Value {
    Obj([Field("expiration", Int(expiration)), Field("ip", OptStr(ip)),
         Field("mimetype", Str("text/plain")), Field("syntax", OptStr(syntax)),
         Field("uid", Str(uid))])
  }

  /** Strict code-point order on keys, the order `sort_keys=True` writes. */
  predicate KeyBefore(a: string, b: string)
    decreases |a|
  {
    b != [] && (a == [] || a[0] < b[0] || (a[0] == b[0] && KeyBefore(a[1..], b[1..])))
  }

  /** The fields of an object as `json.dumps(..., sort_keys=True)` writes them. */
  predicate SortedKeys(fields: seq<Field>) {
    forall i :: 0 <= i < |fields| - 1 ==> KeyBefore(fields[i].key, fields[i + 1].key)
  }

  /** The header's keys are in the order `sort_keys=True` writes them. */
  lemma PlainHeaderSorted(uid: string, expiration: int, syntax: Option<string>, ip: Option<string>)
    ensures PlainHeader(uid, expiration, syntax, ip).Obj?
    ensures SortedKeys(PlainHeader(uid, expiration, syntax, ip).fields)
  {
  }

  /** The bytes of a plain paste file: header, one newline byte, contents. */
  function FramePlain(header: Value, contents: seq<byte>): (r: seq<byte>)
    ensures |r| > |contents|
    ensures SplitAtNewline(r) == Some((EncodeBytes(header), contents))
  {
    SplitFrame(EncodeBytes(header), contents);
    EncodeBytes(header) + [Newline] + contents
  }

  function IndexOf(bs: seq<byte>, b: byte): (r: Option<nat>)
    ensures r.None? <==> b !in bs
    ensures r.Some? ==> r.value < |bs| && bs[r.value] == b && b !in bs[..r.value]
  {
    if bs == [] then None
    else if bs[0] == b then Some(0)
    else match IndexOf(bs[1..], b)
      case None => None
      case Some(i) =>
        assert bs[..i + 1] == [bs[0]] + bs[1..][..i];
        Some(i + 1)
  }

  /** `content.split(b"\n", 1)` unpacked into two parts: the bytes before the
      first newline and the bytes after it; nothing when there is no newline
      (the unpacking raises). */
  function SplitAtNewline(bs: seq<byte>): (r: Option<(seq<byte>, seq<byte>)>)
    ensures r.None? <==> Newline !in bs
    ensures r.Some? ==> Newline !in r.value.0 && bs == r.value.0 + [Newline] + r.value.1
  {
    match IndexOf(bs, Newline)
    case None => None
    case Some(i) =>
      assert bs == bs[..i] + [Newline] + bs[i + 1..];
      Some((bs[..i], bs[i + 1..]))
  }

  /** The split finds the framing newline, since the header holds none. */
  lemma SplitFrame(header: seq<byte>, contents: seq<byte>)
    requires Newline !in header
    ensures SplitAtNewline(header + [Newline] + contents) == Some((header, contents))
  {
    var bs := header + [Newline] + contents;
    var r := SplitAtNewline(bs);
    assert bs[|header|] == Newline;
    assert r.Some?;
    var h := r.value.0;
    if |h| < |header| {
      assert false;
    } else if |h| > |header| {
      assert false;
    }
    assert h == bs[..|h|] == header;
    assert r.value.1 == bs[|h| + 1..] == contents;
  }

  // ---------------------------------------------------------------------
  // Reading
  // ---------------------------------------------------------------------

  /** What a read returns: a value, Python's `None` (a miss, or an error the
      reader logs and swallows), or an exception that escapes. */
  datatype Read<T> = Got(value: T) | Nothing | Raised(message: string)

  /** The record `read_plain_path` returns (its `_type` is always `p`);
      the contents are kept as bytes. */
  datatype Plain = Plain(uid: Value, content: seq<byte>, syntax: Value, expiration: Value)

  const PathNotFound: string := "path not found"

  /** Python's name for the type of a decoded value. */
  function TypeName(v: Value): string {
    match v
    case Null => "NoneType"
    case Bool(_) => "bool"
    case Int(_) => "int"
    case Str(_) => "str"
    case Arr(_) => "list"
    case Obj(_) => "dict"
  }

  /** A header that is JSON but not an object has no `.get`, and the error
      escapes the reader's `try`. */
  function NoGet(v: Value): string {
    "'" + TypeName(v) + "' object has no attribute 'get'"
  }

  /** The first line of a plain paste file as JSON: nothing when the file
      has no newline or that line is not a JSON document. */
  function HeaderOf(data: seq<byte>): (r: Option<Value>)
    ensures Newline !in data ==> r.None?
  {
    match SplitAtNewline(data)
    case None => None
    case Some((header, _)) => DecodeBytes(header)
  }

  /** `read_plain_path`: a missing path raises; a file with no newline or a
      header that is not JSON is logged and gives `None`; a header that is
      JSON but not an object raises at the first `.get`. */
  function ReadPlainPath(d: Directory, path: string): (r: Read<Plain>)
    ensures r == Raised(PathNotFound) <==> !Exists(d, path)
    ensures Exists(d, path) && Newline !in Stat(d, path).value.data ==> r == Nothing
    ensures Exists(d, path) && HeaderOf(Stat(d, path).value.data).None? ==> r == Nothing
    ensures Exists(d, path) && HeaderOf(Stat(d, path).value.data).Some?
            && !HeaderOf(Stat(d, path).value.data).value.Obj?
            ==> r == Raised(NoGet(HeaderOf(Stat(d, path).value.data).value))
    ensures r.Got? ==> Exists(d, path) && HeaderOf(Stat(d, path).value.data).Some?
                       && HeaderOf(Stat(d, path).value.data).value.Obj?
    ensures Exists(d, path) && HeaderOf(Stat(d, path).value.data).Some?
            && HeaderOf(Stat(d, path).value.data).value.Obj? ==>
              var fields := HeaderOf(Stat(d, path).value.data).value.fields;
              r == Got(Plain(Get(fields, "uid").GetOr(Str("")), SplitAtNewline(Stat(d, path).value.data).value.1,
                             Get(fields, "syntax").GetOr(Str("")), Get(fields, "expiration").GetOr(Null)))
  {
    if !Exists(d, path) then Raised(PathNotFound)
    else match SplitAtNewline(Stat(d, path).value.data)
      case None => Nothing
      case Some((header, content)) =>
        match DecodeBytes(header)
        case None => Nothing
        case Some(v) =>
          if !v.Obj? then Raised(NoGet(v))
          else Got(Plain(Get(v.fields, "uid").GetOr(Str("")), content,
                         Get(v.fields, "syntax").GetOr(Str("")),
                         Get(v.fields, "expiration").GetOr(Null)))
  }

  /** `read_album_path`: a missing path raises; a file that is not JSON is
      logged and gives `None`; otherwise the decoded document. */
  function ReadAlbumPath(d: Directory, path: string): (r: Read<Value>)
    ensures r == Raised(PathNotFound) <==> !Exists(d, path)
    ensures r.Raised? ==> r == Raised(PathNotFound)
    ensures r.Got? ==> Exists(d, path) && DecodeBytes(Stat(d, path).value.data) == Some(r.value)
    ensures Exists(d, path) && DecodeBytes(Stat(d, path).value.data).Some? ==>
              r == Got(DecodeBytes(Stat(d, path).value.data).value)
    ensures Exists(d, path) && DecodeBytes(Stat(d, path).value.data).None? ==> r == Nothing
  {
    if !Exists(d, path) then Raised(PathNotFound)
    else match DecodeBytes(Stat(d, path).value.data)
      case None => Nothing
      case Some(v) => Got(v)
  }

  /** `find_by_uid`: the path of the first listed file named `<uid>.*`. */
  function FindByUid(d: Directory, uid: string): (r: Option<string>)
    ensures r.None? <==> forall j :: 0 <= j < |d.names| ==> !StartsWith(d.names[j], uid + ".")
    ensures r.Some? ==> exists j :: 0 <= j < |d.names| && r.value == Path(d.names[j])
                                    && StartsWith(d.names[j], uid + ".")
                                    && forall k :: 0 <= k < j ==> !StartsWith(d.names[k], uid + ".")
  {
    match FirstWithPrefix(d.names, uid + ".")
    case None => None
    case Some(i) => Some(Path(d.names[i]))
  }

  function ReadPlainUid(d: Directory, uid: string): (r: Read<Plain>)
    ensures FindByUid(d, uid).None? ==> r == Nothing
  {
    match FindByUid(d, uid)
    case None => Nothing
    case Some(path) => ReadPlainPath(d, path)
  }

  function ReadAlbumUid(d: Directory, uid: string): (r: Read<Value>)
    ensures FindByUid(d, uid).None? ==> r == Nothing
  {
    match FindByUid(d, uid)
    case None => Nothing
    case Some(path) => ReadAlbumPath(d, path)
  }

  /** `read_image_uid`: the raw bytes of the first file named `<uid>.*`. */
  function ReadImageUid(d: Directory, uid: string): (r: Read<seq<byte>>)
    ensures FindByUid(d, uid).None? ==> r == Nothing
    ensures r.Got? ==> exists name :: name in d.files && StartsWith(name, uid + ".") && r.value == d.files[name].data
    ensures FindByUid(d, uid).Some? && Exists(d, FindByUid(d, uid).value) ==>
              r == Got(Stat(d, FindByUid(d, uid).value).value.data)
  {
    match FindByUid(d, uid)
    case None => Nothing
    case Some(path) =>
      if !Exists(d, path) then Raised(PathNotFound)
      else
        NameOfPath(NameOf(path).value);
        Got(Stat(d, path).value.data)
  }

  /** No stored name begins with `<uid>.`: the uid is new to the directory. */
  predicate FreshUid(d: Directory, uid: string) {
    forall j :: 0 <= j < |d.names| ==> !StartsWith(d.names[j], uid + ".")
  }

  /** A key that does not occur again later reads its own value. */
  lemma GetLast(fields: seq<Field>, i: nat)
    requires i < |fields|
    requires forall j :: i < j < |fields| ==> fields[j].key != fields[i].key
    ensures Get(fields, fields[i].key) == Some(fields[i].val)
  {
  }

  /** A freshly written plain paste reads back as written: the split finds
      the framing newline (the header is printable ASCII), the header decodes
      to the object that was encoded, and the contents come back verbatim. */
  lemma PlainRoundTrip(d: Directory, contents: seq<byte>, expiration: int, syntax: Option<string>,
                       uid: string, ip: Option<string>, now: int)
    ensures var name := PlainName(uid, expiration);
            var header := PlainHeader(uid, expiration, syntax, ip);
            var d2 := Put(d, name, File(FramePlain(header, contents), now));
            ReadPlainPath(d2, Path(name)) == Got(Plain(Str(uid), contents, OptStr(syntax), Int(expiration)))
  {
    var name := PlainName(uid, expiration);
    var header := PlainHeader(uid, expiration, syntax, ip);
    var f := File(FramePlain(header, contents), now);
    PutStat(d, name, f);
    ReadFramed(Put(d, name, f), Path(name), header.fields, contents);
    PlainHeaderGets(uid, expiration, syntax, ip);
  }

  /** The header's uid, syntax and expiration read back from its fields. */
  lemma PlainHeaderGets(uid: string, expiration: int, syntax: Option<string>, ip: Option<string>)
    ensures var fs := PlainHeader(uid, expiration, syntax, ip).fields;
            Get(fs, "uid") == Some(Str(uid)) && Get(fs, "syntax") == Some(OptStr(syntax))
            && Get(fs, "expiration") == Some(Int(expiration))
  {
    var fs := PlainHeader(uid, expiration, syntax, ip).fields;
    GetLast(fs, 0);
    GetLast(fs, 3);
    GetLast(fs, 4);
  }

  /** A file framed around an object header reads back as that header's
      fields and the contents. */
  lemma ReadFramed(d: Directory, path: string, fields: seq<Field>, contents: seq<byte>)
    requires Exists(d, path) && Stat(d, path).value.data == FramePlain(Obj(fields), contents)
    ensures ReadPlainPath(d, path) ==
            Got(Plain(Get(fields, "uid").GetOr(Str("")), contents,
                      Get(fields, "syntax").GetOr(Str("")), Get(fields, "expiration").GetOr(Null)))
  {
    SplitFrame(EncodeBytes(Obj(fields)), contents);
    DecodeEncodeBytes(Obj(fields));
  }

  /** Found by its uid as long as no earlier file carries the same uid. */
  lemma PlainFoundAfterWrite(d: Directory, contents: seq<byte>, expiration: int, syntax: Option<string>,
                             uid: string, ip: Option<string>, now: int)
    requires Valid(d) && FreshUid(d, uid)
    ensures var name := PlainName(uid, expiration);
            var header := PlainHeader(uid, expiration, syntax, ip);
            var d2 := Put(d, name, File(FramePlain(header, contents), now));
            ReadPlainUid(d2, uid) == Got(Plain(Str(uid), contents, OptStr(syntax), Int(expiration)))
  {
    var name := PlainName(uid, expiration);
    var header := PlainHeader(uid, expiration, syntax, ip);
    var d2 := Put(d, name, File(FramePlain(header, contents), now));
    assert StartsWith(name, uid + ".");
    assert name !in d.files;
    FirstWithPrefixAppend(d.names, name, uid + ".");
    PlainRoundTrip(d, contents, expiration, syntax, uid, ip, now);
  }

  // ---------------------------------------------------------------------
  // Images and albums
  // ---------------------------------------------------------------------

  /** The mime types whose images are re-encoded without their metadata. */
  const SanitizedMimes: seq<string> := ["image/jpeg", "image/jpg", "image/png"]

  /** `mime.split("/", 1)[1]`: what follows the first slash, or nothing when
      there is no slash (the indexing raises). */
  function Subtype(mime: string): (r: Option<string>)
    ensures r.None? <==> '/' !in mime
  {
    if mime == [] then None
    else if mime[0] == '/' then Some(mime[1..])
    else Subtype(mime[1..])
  }

  lemma {:induction false} SubtypeAfterSlash(top: string, sub: string)
    requires '/' !in top
    ensures Subtype(top + "/" + sub) == Some(sub)
    decreases |top|
  {
    var m := top + "/" + sub;
    if top == [] {
      assert m[0] == '/' && m[1..] == sub;
    } else {
      assert m[0] == top[0] && m[1..] == top[1..] + "/" + sub;
      SubtypeAfterSlash(top[1..], sub);
    }
  }

  /** Every mime type sent to the sanitizer names an extension it accepts,
      so its extension check never fires from the store. */
  lemma SanitizedMimesAccepted(mime: string)
    requires mime in SanitizedMimes
    ensures Subtype(mime).Some? && SanitizableExtension(Subtype(mime).value)
  {
    var sub := mime[6..];
    assert mime == "image" + "/" + sub;
    SubtypeAfterSlash("image", sub);
    assert sub == "jpeg" || sub == "jpg" || sub == "png";
  }

  function IpText(ip: Option<string>): string {
    if ip.None? then "None" else ip.value
  }

  function InvalidMimetype(ip: Option<string>, mime: string): string {
    "An image with for uploader " + IpText(ip) + " has an invalid mimetype of " + mime
  }

  const IndexOutOfRange: string := "list index out of range"

  /** The metadata `write_image` returns, keys in sorted order. */
  function ImageMeta(uid: string, mime: string, expiration: int, ip: Option<string>): Value {
    Obj([Field("expiration", Int(expiration)), Field("filename", Str(ImageName(uid))),
         Field("filepath", Str(Path(ImageName(uid)))), Field("ip", OptStr(ip)),
         Field("mimetype", Str(mime)), Field("uid", Str(uid))])
  }

  /** The image metadata's keys are in the order `sort_keys=True` writes
      them for the album file. */
  lemma ImageMetaSorted(uid: string, mime: string, expiration: int, ip: Option<string>)
    ensures ImageMeta(uid, mime, expiration, ip).Obj?
    ensures SortedKeys(ImageMeta(uid, mime, expiration, ip).fields)
  {
  }

  /** The bytes `write_image` stores for an upload whose sniffed mime type
      is `mime`: sanitized for JPEG and PNG, verbatim otherwise. */
  function StoredImage(contents: seq<byte>, mime: string, im: Imaging): (r: Result<seq<byte>, string>)
    ensures r.Ok? ==> StartsWith(mime, "image") && '/' in mime
    ensures r.Ok? && mime !in SanitizedMimes ==> r.value == contents
  {
    if !StartsWith(mime, "image") then Err("")
    else match Subtype(mime)
      case None => Err(IndexOutOfRange)
      case Some(extension) =>
        if mime in SanitizedMimes then ImageSanitize(contents, extension, im) else Ok(contents)
  }

  /** `write_image`: validates the sniffed mime type, sanitizes JPEG and PNG,
      and stores the result under `<uid>.png`. Every failure raises before
      anything is written. */
  function WriteImageSpec(d: Directory, contents: seq<byte>, expiration: int, uid: string,
                          ip: Option<string>, im: Imaging, now: int): (r: (Directory, Result<Value, string>))
    ensures r.1.Err? ==> r.0 == d
    ensures !StartsWith(im.sniff(contents), "image") ==> r == (d, Err(InvalidMimetype(ip, im.sniff(contents))))
    ensures r.1.Ok? ==> r.1.value == ImageMeta(uid, im.sniff(contents), expiration, ip)
                        && StoredImage(contents, im.sniff(contents), im).Ok?
                        && r.0 == Put(d, ImageName(uid), File(StoredImage(contents, im.sniff(contents), im).value, now))
  {
    var mime := im.sniff(contents);
    if !StartsWith(mime, "image") then (d, Err(InvalidMimetype(ip, mime)))
    else match StoredImage(contents, mime, im)
      case Err(e) => (d, Err(e))
      case Ok(bytes) => (Put(d, ImageName(uid), File(bytes, now)), Ok(ImageMeta(uid, mime, expiration, ip)))
  }

  /** An upload `write_image` accepts: its sniffed type is an image, and it
      passes the sanitizer when it is JPEG or PNG. */
  predicate Storable(contents: seq<byte>, im: Imaging) {
    StoredImage(contents, im.sniff(contents), im).Ok?
  }

  /** The message `write_image` raises for an upload it does not accept. */
  function ImageError(contents: seq<byte>, ip: Option<string>, im: Imaging): string {
    var mime := im.sniff(contents);
    if !StartsWith(mime, "image") then InvalidMimetype(ip, mime)
    else match StoredImage(contents, mime, im)
      case Err(e) => e
      case Ok(_) => ""
  }

  /** `write_image` succeeds exactly on the uploads it accepts, and fails on
      the others with their error. */
  lemma WriteImageOutcome(d: Directory, contents: seq<byte>, expiration: int, uid: string,
                          ip: Option<string>, im: Imaging, now: int)
    ensures var r := WriteImageSpec(d, contents, expiration, uid, ip, im, now).1;
            (r.Ok? <==> Storable(contents, im)) && (r.Err? ==> r.error == ImageError(contents, ip, im))
  {
  }

  /** Only JPEG and PNG uploads go through the sanitizer, with the mime
      subtype as extension; every other image is stored as uploaded. */
  lemma StoredImageBytes(contents: seq<byte>, mime: string, im: Imaging)
    requires StartsWith(mime, "image") && '/' in mime
    ensures mime in SanitizedMimes ==>
              StoredImage(contents, mime, im) == ImageSanitize(contents, Subtype(mime).value, im)
              && SanitizableExtension(Subtype(mime).value)
    ensures mime !in SanitizedMimes ==> StoredImage(contents, mime, im) == Ok(contents)
  {
    if mime in SanitizedMimes {
      SanitizedMimesAccepted(mime);
    }
  }

  const NoContent: string := "no content"

  /** The loop of `write_album`: each image is written in turn and the
      first failure escapes, leaving the earlier images on disk. */
  function WriteImages(d: Directory, images: seq<seq<byte>>, uids: seq<string>, expiration: int,
                       ip: Option<string>, im: Imaging, now: int): (r: (Directory, Result<seq<Value>, string>))
    requires |uids| == |images|
    ensures r.1.Ok? ==> |r.1.value| == |images|
    decreases |images|
  {
    if images == [] then (d, Ok([]))
    else
      var (d1, r1) := WriteImageSpec(d, images[0], expiration, uids[0], ip, im, now);
      if r1.Err? then (d1, Err(r1.error))
      else
        var (d2, r2) := WriteImages(d1, images[1..], uids[1..], expiration, ip, im, now);
        (d2, Prepend([r1.value], r2))
  }

  /** The metadata collected so far in front of the rest of a run. */
  function Prepend(data: seq<Value>, r: Result<seq<Value>, string>): Result<seq<Value>, string> {
    if r.Err? then r else Ok(data + r.value)
  }

  /** A run that succeeds returns the metadata of every image, in upload
      order. */
  lemma {:induction false} WriteImagesMetas(d: Directory, images: seq<seq<byte>>, uids: seq<string>, expiration: int,
                                           ip: Option<string>, im: Imaging, now: int)
    requires |uids| == |images|
    ensures var r := WriteImages(d, images, uids, expiration, ip, im, now).1;
            r.Ok? ==> forall i :: 0 <= i < |images| ==>
                        r.value[i] == ImageMeta(uids[i], im.sniff(images[i]), expiration, ip)
    decreases |images|
  {
    if images != [] {
      var (d1, r1) := WriteImageSpec(d, images[0], expiration, uids[0], ip, im, now);
      if r1.Ok? {
        WriteImagesMetas(d1, images[1..], uids[1..], expiration, ip, im, now);
        var r2 := WriteImages(d1, images[1..], uids[1..], expiration, ip, im, now).1;
        if r2.Ok? {
          MetasCons(r1.value, r2.value, images, uids, expiration, ip, im);
        }
      }
    }
  }

  /** The metadata of the first image in front of those of the rest are the
      metadata of all of them. */
  lemma MetasCons(first: Value, rest: seq<Value>, images: seq<seq<byte>>, uids: seq<string>, expiration: int,
                  ip: Option<string>, im: Imaging)
    requires |images| == |uids| == |rest| + 1
    requires first == ImageMeta(uids[0], im.sniff(images[0]), expiration, ip)
    requires forall i :: 0 <= i < |rest| ==>
               rest[i] == ImageMeta(uids[1..][i], im.sniff(images[1..][i]), expiration, ip)
    ensures forall i :: 0 <= i < |images| ==>
              ([first] + rest)[i] == ImageMeta(uids[i], im.sniff(images[i]), expiration, ip)
  {
    forall i | 0 < i < |images|
      ensures ([first] + rest)[i] == ImageMeta(uids[i], im.sniff(images[i]), expiration, ip)
    {
      assert ([first] + rest)[i] == rest[i - 1];
      assert images[1..][i - 1] == images[i];
      assert uids[1..][i - 1] == uids[i];
    }
  }

  /** `write_album`: the images, then (when there is at least one) the
      album file holding the JSON list of their metadata. */
  function WriteAlbumSpec(d: Directory, images: seq<seq<byte>>, uids: seq<string>, albumUid: string,
                          expiration: int, ip: Option<string>, im: Imaging, now: int): (r: (Directory, Result<string, string>))
    requires |uids| == |images|
    ensures images == [] ==> r == (d, Err(NoContent))
    ensures r.1.Ok? ==> r.1.value == albumUid && images != []
  {
    var (d1, r1) := WriteImages(d, images, uids, expiration, ip, im, now);
    if r1.Err? then (d1, Err(r1.error))
    else if r1.value == [] then (d1, Err(NoContent))
    else (Put(d1, AlbumName(albumUid, expiration), File(EncodeBytes(Arr(r1.value)), now)), Ok(albumUid))
  }

  /** An album of no images raises `no content` and writes nothing. */
  lemma AlbumOfNothing(d: Directory, albumUid: string, expiration: int, ip: Option<string>, im: Imaging, now: int)
    ensures WriteAlbumSpec(d, [], [], albumUid, expiration, ip, im, now) == (d, Err(NoContent))
  {
  }

  /** Writing images only adds or overwrites the images' own names. */
  lemma {:induction false} WriteImagesFrame(d: Directory, images: seq<seq<byte>>, uids: seq<string>, expiration: int,
                                           ip: Option<string>, im: Imaging, now: int, name: string)
    requires |uids| == |images|
    requires forall i :: 0 <= i < |uids| ==> ImageName(uids[i]) != name
    ensures var d2 := WriteImages(d, images, uids, expiration, ip, im, now).0;
            (name in d2.files <==> name in d.files) && (name in d.files ==> d2.files[name] == d.files[name])
            && (name in d2.names <==> name in d.names)
    decreases |images|
  {
    if images != [] {
      WriteImageFrame(d, images[0], expiration, uids[0], ip, im, now, name);
      var (d1, r1) := WriteImageSpec(d, images[0], expiration, uids[0], ip, im, now);
      if r1.Ok? {
        assert forall i :: 0 <= i < |uids[1..]| ==> uids[1..][i] == uids[i + 1];
        WriteImagesFrame(d1, images[1..], uids[1..], expiration, ip, im, now, name);
      }
    }
  }

  lemma WriteImageFrame(d: Directory, contents: seq<byte>, expiration: int, uid: string,
                        ip: Option<string>, im: Imaging, now: int, name: string)
    requires ImageName(uid) != name
    ensures var d2 := WriteImageSpec(d, contents, expiration, uid, ip, im, now).0;
            (name in d2.files <==> name in d.files) && (name in d.files ==> d2.files[name] == d.files[name])
            && (name in d2.names <==> name in d.names)
  {
    var mime := im.sniff(contents);
    if StartsWith(mime, "image") && StoredImage(contents, mime, im).Ok? {
      PutElsewhere(d, ImageName(uid), File(StoredImage(contents, mime, im).value, now), name);
    }
  }

  /** Writing images keeps the listing faithful to the files. */
  lemma {:induction false} WriteImagesValid(d: Directory, images: seq<seq<byte>>, uids: seq<string>, expiration: int,
                                           ip: Option<string>, im: Imaging, now: int)
    requires |uids| == |images| && Valid(d)
    ensures Valid(WriteImages(d, images, uids, expiration, ip, im, now).0)
    decreases |images|
  {
    if images != [] {
      var mime := im.sniff(images[0]);
      if StartsWith(mime, "image") && StoredImage(images[0], mime, im).Ok? {
        PutValid(d, ImageName(uids[0]), File(StoredImage(images[0], mime, im).value, now));
      }
      var (d1, r1) := WriteImageSpec(d, images[0], expiration, uids[0], ip, im, now);
      if r1.Ok? {
        WriteImagesValid(d1, images[1..], uids[1..], expiration, ip, im, now);
      }
    }
  }

  /** So does writing an album, whether it succeeds or not. */
  lemma WriteAlbumValid(d: Directory, images: seq<seq<byte>>, uids: seq<string>, albumUid: string,
                        expiration: int, ip: Option<string>, im: Imaging, now: int)
    requires |uids| == |images| && Valid(d)
    ensures Valid(WriteAlbumSpec(d, images, uids, albumUid, expiration, ip, im, now).0)
  {
    WriteImagesValid(d, images, uids, expiration, ip, im, now);
    var (d1, r1) := WriteImages(d, images, uids, expiration, ip, im, now);
    if r1.Ok? && r1.value != [] {
      PutValid(d1, AlbumName(albumUid, expiration), File(EncodeBytes(Arr(r1.value)), now));
    }
  }

  /** A failing album leaves no album file behind: only the images written
      before the failure remain. */
  lemma AlbumFailureWritesNoAlbum(d: Directory, images: seq<seq<byte>>, uids: seq<string>, albumUid: string,
                                  expiration: int, ip: Option<string>, im: Imaging, now: int)
    requires |uids| == |images|
    requires AlbumName(albumUid, expiration) !in d.files
    ensures var r := WriteAlbumSpec(d, images, uids, albumUid, expiration, ip, im, now);
            r.1.Err? ==> AlbumName(albumUid, expiration) !in r.0.files
  {
    var name := AlbumName(albumUid, expiration);
    forall i | 0 <= i < |uids|
      ensures ImageName(uids[i]) != name
    {
      var a := ImageName(uids[i]);
      assert a[|a| - 1] == 'g';
      assert name[|name| - 1] == 'm';
    }
    WriteImagesFrame(d, images, uids, expiration, ip, im, now, name);
  }

  /** A successful album is named with the `expires.` marker exactly when it
      expires, and its file reads back as the list of the images' metadata,
      one entry per image, in upload order. */
  lemma AlbumWritten(d: Directory, images: seq<seq<byte>>, uids: seq<string>, albumUid: string,
                     expiration: int, ip: Option<string>, im: Imaging, now: int)
    requires |uids| == |images|
    requires DotFree(albumUid)
    ensures var (d2, r) := WriteAlbumSpec(d, images, uids, albumUid, expiration, ip, im, now);
            var name := AlbumName(albumUid, expiration);
            r.Ok? ==>
              r.value == albumUid && images != [] &&
              (Expiring(name) <==> expiration > 0) &&
              exists metas: seq<Value> ::
                |metas| == |images| &&
                (forall i :: 0 <= i < |images| ==> metas[i] == ImageMeta(uids[i], im.sniff(images[i]), expiration, ip)) &&
                ReadAlbumPath(d2, Path(name)) == Got(Arr(metas))
  {
    var (d1, r1) := WriteImages(d, images, uids, expiration, ip, im, now);
    var name := AlbumName(albumUid, expiration);
    StoredNameExpiring(albumUid, expiration, "album");
    WriteImagesMetas(d, images, uids, expiration, ip, im, now);
    if r1.Ok? && r1.value != [] {
      var metas := r1.value;
      var d2 := Put(d1, name, File(EncodeBytes(Arr(metas)), now));
      NameOfPath(name);
      DecodeEncodeBytes(Arr(metas));
      assert ReadAlbumPath(d2, Path(name)) == Got(Arr(metas));
    }
  }

  /** A run whose first upload is accepted stores that image and goes on
      with the rest; a failure further on is the run's failure. */
  lemma WriteImagesAccepted(d: Directory, images: seq<seq<byte>>, uids: seq<string>, expiration: int,
                            ip: Option<string>, im: Imaging, now: int)
    requires |uids| == |images| && images != [] && Storable(images[0], im)
    ensures var d1 := WriteImageSpec(d, images[0], expiration, uids[0], ip, im, now).0;
            var rest := WriteImages(d1, images[1..], uids[1..], expiration, ip, im, now);
            ImageName(uids[0]) in d1.files
            && WriteImages(d, images, uids, expiration, ip, im, now).0 == rest.0
            && (rest.1.Err? ==> WriteImages(d, images, uids, expiration, ip, im, now).1 == rest.1)
  {
    WriteImageOutcome(d, images[0], expiration, uids[0], ip, im, now);
  }

  /** A run whose first upload is refused fails with its error and writes
      nothing. */
  lemma WriteImagesRefused(d: Directory, images: seq<seq<byte>>, uids: seq<string>, expiration: int,
                           ip: Option<string>, im: Imaging, now: int)
    requires |uids| == |images| && images != [] && !Storable(images[0], im)
    ensures WriteImages(d, images, uids, expiration, ip, im, now) == (d, Err(ImageError(images[0], ip, im)))
  {
    WriteImageOutcome(d, images[0], expiration, uids[0], ip, im, now);
  }

  /** The loop of `write_album` gets through every image exactly when
      `write_image` accepts each of them. */
  lemma {:induction false} WriteImagesSucceed(d: Directory, images: seq<seq<byte>>, uids: seq<string>, expiration: int,
                                             ip: Option<string>, im: Imaging, now: int)
    requires |uids| == |images|
    ensures WriteImages(d, images, uids, expiration, ip, im, now).1.Ok? <==>
            forall i :: 0 <= i < |images| ==> Storable(images[i], im)
    decreases |images|
  {
    if images != [] {
      var (d1, r1) := WriteImageSpec(d, images[0], expiration, uids[0], ip, im, now);
      WriteImageOutcome(d, images[0], expiration, uids[0], ip, im, now);
      if r1.Ok? {
        WriteImagesSucceed(d1, images[1..], uids[1..], expiration, ip, im, now);
        assert forall i :: 0 < i < |images| ==> images[i] == images[1..][i - 1];
      }
    }
  }

  /** Writing images never removes a file. */
  lemma {:induction false} WriteImagesGrows(d: Directory, images: seq<seq<byte>>, uids: seq<string>, expiration: int,
                                           ip: Option<string>, im: Imaging, now: int)
    requires |uids| == |images|
    ensures d.files.Keys <= WriteImages(d, images, uids, expiration, ip, im, now).0.files.Keys
    decreases |images|
  {
    if images != [] {
      var (d1, r1) := WriteImageSpec(d, images[0], expiration, uids[0], ip, im, now);
      if r1.Ok? {
        WriteImagesGrows(d1, images[1..], uids[1..], expiration, ip, im, now);
      }
    }
  }

  /** The first upload `write_image` refuses ends the loop with its error. */
  lemma {:induction false} WriteImagesStopsAt(d: Directory, images: seq<seq<byte>>, uids: seq<string>, expiration: int,
                                             ip: Option<string>, im: Imaging, now: int, k: nat)
    requires |uids| == |images| && k < |images|
    requires forall i :: 0 <= i < k ==> Storable(images[i], im)
    requires !Storable(images[k], im)
    ensures WriteImages(d, images, uids, expiration, ip, im, now).1 == Err(ImageError(images[k], ip, im))
    decreases k
  {
    if k == 0 {
      WriteImagesRefused(d, images, uids, expiration, ip, im, now);
    } else {
      assert Storable(images[0], im);
      WriteImagesAccepted(d, images, uids, expiration, ip, im, now);
      var d1 := WriteImageSpec(d, images[0], expiration, uids[0], ip, im, now).0;
      StorableTail(images, im, k);
      assert images[1..][k - 1] == images[k];
      WriteImagesStopsAt(d1, images[1..], uids[1..], expiration, ip, im, now, k - 1);
    }
  }

  /** Every image accepted before the loop stops is on disk afterwards. */
  lemma {:induction false} WriteImagesKeepsAccepted(d: Directory, images: seq<seq<byte>>, uids: seq<string>, expiration: int,
                                                   ip: Option<string>, im: Imaging, now: int, k: nat)
    requires |uids| == |images| && k <= |images|
    requires forall i :: 0 <= i < k ==> Storable(images[i], im)
    ensures forall i :: 0 <= i < k ==> ImageName(uids[i]) in WriteImages(d, images, uids, expiration, ip, im, now).0.files
    decreases k
  {
    if k > 0 {
      WriteImagesAccepted(d, images, uids, expiration, ip, im, now);
      var d1 := WriteImageSpec(d, images[0], expiration, uids[0], ip, im, now).0;
      StorableTail(images, im, k);
      WriteImagesKeepsAccepted(d1, images[1..], uids[1..], expiration, ip, im, now, k - 1);
      WriteImagesGrows(d1, images[1..], uids[1..], expiration, ip, im, now);
      NamesCons(uids, WriteImages(d, images, uids, expiration, ip, im, now).0.files, k);
    }
  }

  /** Accepted uploads stay accepted once the first one is dropped. */
  lemma StorableTail(images: seq<seq<byte>>, im: Imaging, k: nat)
    requires 0 < k <= |images|
    requires forall i :: 0 <= i < k ==> Storable(images[i], im)
    ensures forall i :: 0 <= i < k - 1 ==> Storable(images[1..][i], im)
  {
    forall i | 0 <= i < k - 1
      ensures Storable(images[1..][i], im)
    {
      assert images[1..][i] == images[i + 1];
    }
  }

  /** The first image's name with those of the next ones are the names of
      all of them. */
  lemma NamesCons(uids: seq<string>, files: map<string, File>, k: nat)
    requires 0 < k <= |uids|
    requires ImageName(uids[0]) in files
    requires forall i :: 0 <= i < k - 1 ==> ImageName(uids[1..][i]) in files
    ensures forall i :: 0 <= i < k ==> ImageName(uids[i]) in files
  {
    forall i | 0 < i < k
      ensures ImageName(uids[i]) in files
    {
      assert uids[1..][i - 1] == uids[i];
    }
  }

  /** One upload that `write_image` refuses fails the whole album with that
      upload's error: no album file is written, and the images accepted
      before it stay on disk. */
  lemma AlbumStopsAt(d: Directory, images: seq<seq<byte>>, uids: seq<string>, albumUid: string,
                     expiration: int, ip: Option<string>, im: Imaging, now: int, k: nat)
    requires |uids| == |images| && k < |images|
    requires forall i :: 0 <= i < k ==> Storable(images[i], im)
    requires !Storable(images[k], im)
    requires AlbumName(albumUid, expiration) !in d.files
    ensures var (d2, r) := WriteAlbumSpec(d, images, uids, albumUid, expiration, ip, im, now);
            r == Err(ImageError(images[k], ip, im))
            && AlbumName(albumUid, expiration) !in d2.files
            && forall i :: 0 <= i < k ==> ImageName(uids[i]) in d2.files
  {
    WriteImagesStopsAt(d, images, uids, expiration, ip, im, now, k);
    WriteImagesKeepsAccepted(d, images, uids, expiration, ip, im, now, k);
    AlbumFailureWritesNoAlbum(d, images, uids, albumUid, expiration, ip, im, now);
  }

  /** An album of at least one image succeeds exactly when every upload is
      accepted. */
  lemma AlbumSucceeds(d: Directory, images: seq<seq<byte>>, uids: seq<string>, albumUid: string,
                      expiration: int, ip: Option<string>, im: Imaging, now: int)
    requires |uids| == |images| && images != []
    ensures WriteAlbumSpec(d, images, uids, albumUid, expiration, ip, im, now).1 == Ok(albumUid) <==>
            forall i :: 0 <= i < |images| ==> Storable(images[i], im)
  {
    WriteImagesSucceed(d, images, uids, expiration, ip, im, now);
  }

  // ---------------------------------------------------------------------
  // The store
  // ---------------------------------------------------------------------

  /** The data directory as the store mutates it. */
  class Pastes {
    var names: seq<string>
    var files: map<string, File>

    function Dir(): Directory
      reads this
    {
      Directory(names, files)
    }

    ghost predicate Valid()
      reads this
    {
      Fs.Valid(Dir())
    }

    constructor (d: Directory)
      ensures Dir() == d
    {
      names := d.names;
      files := d.files;
    }

    /** Opens `name` for writing and writes `data` to it at time `now`. */
    method Write(name: string, data: seq<byte>, now: int)
      modifies this
      ensures Dir() == Put(old(Dir()), name, File(data, now))
      ensures old(Valid()) ==> Valid()
    {
      ghost var d := Dir();
      if name !in files {
        names := names + [name];
      }
      files := files[name := File(data, now)];
      if Fs.Valid(d) {
        PutValid(d, name, File(data, now));
      }
    }

    /** `os.remove(path)`; `ok` is false where the call raises because the
      path does not exist. */
    method Remove(path: string) returns (ok: bool)
      modifies this
      ensures ok == Exists(old(Dir()), path)
      ensures Dir() == RemovePath(old(Dir()), path)
      ensures old(Valid()) ==> Valid()
    {
      ghost var d := Dir();
      ok := Exists(Dir(), path);
      if ok {
        var name := NameOf(path).value;
        names := RemoveName(names, name);
        files := files - {name};
        if Fs.Valid(d) {
          RemoveValid(d, name);
        }
      }
    }

    /** `write_plain`: the framed paste under `<uid>.paste`, or
        `<uid>.expires.paste` when it expires. */
    method WritePlain(contents: seq<byte>, expiration: int, syntax: Option<string>,
                      uid: string, ip: Option<string>, now: int) returns (r: string)
      modifies this
      ensures r == uid
      ensures Dir() == Put(old(Dir()), PlainName(uid, expiration),
                           File(FramePlain(PlainHeader(uid, expiration, syntax, ip), contents), now))
      ensures old(Valid()) ==> Valid()
    {
      var metadata := EncodeBytes(PlainHeader(uid, expiration, syntax, ip));
      Write(PlainName(uid, expiration), metadata + [Newline] + contents, now);
      r := uid;
    }

    /** `write_image` */
    method WriteImage(contents: seq<byte>, expiration: int, uid: string,
                      ip: Option<string>, im: Imaging, now: int) returns (r: Result<Value, string>)
      modifies this
      ensures (Dir(), r) == WriteImageSpec(old(Dir()), contents, expiration, uid, ip, im, now)
      ensures old(Valid()) ==> Valid()
    {
      var mime := im.sniff(contents);
      if !StartsWith(mime, "image") {
        return Err(InvalidMimetype(ip, mime));
      }
      var stored := StoredImage(contents, mime, im);
      if stored.Err? {
        return Err(stored.error);
      }
      Write(ImageName(uid), stored.value, now);
      r := Ok(ImageMeta(uid, mime, expiration, ip));
    }

    /** `write_album`: writes the images one by one, stopping at the first
        that raises, then the album file when any metadata was collected.
        `uids` are the uids drawn for the images, `albumUid` the album's. */
    method WriteAlbum(images: seq<seq<byte>>, uids: seq<string>, albumUid: string, expiration: int,
                      ip: Option<string>, im: Imaging, now: int) returns (r: Result<string, string>)
      requires |uids| == |images|
      modifies this
      ensures (Dir(), r) == WriteAlbumSpec(old(Dir()), images, uids, albumUid, expiration, ip, im, now)
    {
      var data := WriteEach(images, uids, expiration, ip, im, now);
      if data.Err? {
        return Err(data.error);
      }
      if data.value == [] {
        return Err(NoContent);
      }
      Write(AlbumName(albumUid, expiration), EncodeBytes(Arr(data.value)), now);
      r := Ok(albumUid);
    }

    /** The loop of `write_album`: the metadata of every image, or the
        error of the first image that raises. */
    method WriteEach(images: seq<seq<byte>>, uids: seq<string>, expiration: int,
                     ip: Option<string>, im: Imaging, now: int) returns (r: Result<seq<Value>, string>)
      requires |uids| == |images|
      modifies this
      ensures (Dir(), r) == WriteImages(old(Dir()), images, uids, expiration, ip, im, now)
    {
      var data: seq<Value> := [];
      var i := 0;
      assert images[i..] == images && uids[i..] == uids;
      PrependNothing(WriteImages(Dir(), images, uids, expiration, ip, im, now).1);
      while i < |images|
        invariant 0 <= i <= |images|
        invariant WriteImages(old(Dir()), images, uids, expiration, ip, im, now)
                  == Resume(data, WriteImages(Dir(), images[i..], uids[i..], expiration, ip, im, now))
      {
        assert images[i..][1..] == images[i + 1..] && uids[i..][1..] == uids[i + 1..];
        var metadata := WriteImage(images[i], expiration, uids[i], ip, im, now);
        if metadata.Err? {
          return Err(metadata.error);
        }
        PrependTwice(data, metadata.value, WriteImages(Dir(), images[i + 1..], uids[i + 1..], expiration, ip, im, now).1);
        data := data + [metadata.value];
        i := i + 1;
      }
      assert data + [] == data;
      r := Ok(data);
    }
  }

  /** The rest of a run, after the metadata collected so far. */
  function Resume(data: seq<Value>, rest: (Directory, Result<seq<Value>, string>)): (Directory, Result<seq<Value>, string>) {
    (rest.0, Prepend(data, rest.1))
  }

  lemma PrependNothing(r: Result<seq<Value>, string>)
    ensures Prepend([], r) == r
  {
    if r.Ok? {
      assert [] + r.value == r.value;
    }
  }

  lemma PrependTwice(data: seq<Value>, v: Value, r: Result<seq<Value>, string>)
    ensures Prepend(data, Prepend([v], r)) == Prepend(data + [v], r)
  {
    if r.Ok? {
      assert data + ([v] + r.value) == data + [v] + r.value;
    }
  }
}
