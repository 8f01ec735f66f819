# quart-pastebin, modelled in Dafny

quart-pastebin is a small pastebin. It stores two kinds of upload as files in
one `data` directory:

- a plain paste: a JSON header line, then the pasted bytes;
- an album: one `<uid>.png` file per image, plus a JSON file listing their
  metadata.

A paste that should expire carries `.expires.` in its file name. A periodic
reaper then does one of two things:

- if the directory is over its size cap, it empties the directory;
- otherwise it deletes each expiring paste, and each album image, once the
  file is older than its expiration.

The model covers:

- the `Pastes` store (`paste/paste.py`);
- the reaper, `try_remove`, `sanitize_expiration` and the guards of
  `image_sanitize` (`paste/utils.py`);
- the request-side rules of the three routes (`paste/routes.py`);
- `bool_env` and the constants (`settings.py`).

Layout, one module per file:

| file | module | what it holds |
|---|---|---|
| `wrappers.dfy` | `Wrappers` | `Option` and `Result` |
| `text.dfy` | `Text` | bytes, prefixes, suffixes, the glob `*t*`, ASCII encoding |
| `json.dfy` | `Json` | JSON values, Python truthiness and `int` coercion, `dict.get`, `json.dumps` with `sort_keys=True`, `json.loads`, and the round trip between them |
| `fs.dfy` | `Fs` | the data directory as a value: a listing in `find` order and a map from name to (bytes, mtime) |
| `settings.dfy` | `Settings` | the constants, `bool_env` and the `PASTE_DEBUG` flag |
| `utils.dfy` | `Utils` | `sanitize_expiration` and `image_sanitize` |
| `paste.dfy` | `Paste` | file naming, framing and reading of pastes; the `Pastes` class, whose methods update the directory in place |
| `cleanup.dfy` | `Cleanup` | `Cleanup.task` and `try_remove`: specification functions, the methods that carry them out on a `Pastes` store, and lemmas about what the reaper deletes and keeps |
| `routes.dfy` | `Routes` | `paste_view`, `paste_plain` and `paste_img` |

Each state-changing operation comes in two parts:

- a function over the directory value (`WriteImageSpec`, `WriteAlbumSpec`,
  `TryRemoveSpec`, `TaskSpec`, `PastePlainSpec`, `PasteImgSpec`);
- a method on a `Pastes` object whose `ensures` ties the new directory and
  the result to that function.

The properties are proved as lemmas about the functions.

The outside world appears as parameters:

- the uuid the source draws;
- the client's address;
- the clock (`now`, in whole seconds);
- the mime sniffer and the imaging library (`Imaging`: `sniff`, `open`,
  `shrink`, `save`).

Python exceptions are results:

- `Err(message)` from the routes and the store;
- `Raised(message)` from the readers;
- `Aborted(message)` when an error ends a reaper run.

## Model

| member | source | states |
|---|---|---|
| Settings.LowerStr | settings.py:6 | `str.lower` keeps the length and lowers every character (ASCII letters only) |
| Settings.BoolEnvString | settings.py:6 | a string is true exactly when it is `"1"` or `true` in any mix of letter cases |
| Settings.BoolEnvNonString | settings.py:6 | a value that is not a string is true exactly when it is the boolean `True` |
| Settings.BoolEnv | settings.py:5-6 | only `True` or a string can be true, and the strings `"1"` and `"true"` are |
| Settings.DebugDefault | settings.py:9 | an unset `PASTE_DEBUG` means debug is off; a set one is on exactly when it lowers to `true` or is `1` |
| Settings.Debug | settings.py:9 | debug can be on only when `PASTE_DEBUG` is set |
| Utils.SanitizeExpiration | paste/utils.py:109-115 | the result lies in 1..2419200; a value of 0 or less becomes 86400, one above the cap becomes the cap, and everything else is kept |
| Utils.SanitizeIdempotent | paste/utils.py:109-115 | sanitizing twice gives the same value as sanitizing once |
| Utils.ImageSanitize | paste/utils.py:17-40 | raises `invalid extension` exactly when the extension is not png, jpg or jpeg; a success needs a picture the library could open |
| Utils.ResizeThreshold | paste/utils.py:29-30 | a picture is shrunk exactly when its height or its width exceeds 3840 |
| Utils.TallPictureKept | paste/utils.py:29-30 | a picture taller than 2160 but within 3840 on both sides is not shrunk, because only the first bound is compared |
| Utils.SanitizeOutput | paste/utils.py:25-40 | the output is the saved picture, shrunk first exactly when it is over the bound |
| Json.AsInt | paste/utils.py:95 | `isinstance(x, int)` holds for ints and for booleans, and a boolean counts as 0 or 1 |
| Json.Get | paste/paste.py:164-167 | `dict.get` gives nothing exactly when no field has the key; otherwise it gives the value of the last field with that key |
| Json.EncodeBytes | paste/paste.py:65-74 | the header `json.dumps` writes is non-empty, printable ASCII and free of newlines, so one newline byte can frame it |
| Json.DecodeEncode | paste/paste.py:156 | `json.loads` of `json.dumps(v)` gives back `v` |
| Json.DecodeEncodeBytes | paste/paste.py:178 | decoding the encoded bytes of `v` as UTF-8 and then as JSON gives back `v` |
| Fs.Stat | paste/utils.py:102 | `os.stat` succeeds exactly when the path names a file in the data directory |
| Fs.PutValid | paste/paste.py:73-76 | writing a file keeps the listing and the files in step; the written name is listed, and no other file appears or disappears |
| Fs.RemoveValid | paste/utils.py:105 | removing a file keeps the listing and the files in step, and unlists the removed name |
| Fs.FirstWithPrefix | paste/paste.py:193-198 | the first listed name that starts with the prefix; nothing exactly when no name does |
| Paste.StoredNameExpiring | paste/paste.py:63 | a stored paste or album name matches `*.expires.*` exactly when its expiration is positive |
| Paste.ImageNameNotExpiring | paste/paste.py:101 | an image file name never matches `*.expires.*`, so the reaper reaches images only through an album |
| Paste.PlainName | paste/paste.py:63 | a plain paste's file name starts with `<uid>.` and ends with `.paste` |
| Paste.PlainHeaderSorted | paste/paste.py:65-71 | the plain paste header is a JSON object whose keys are in the order `sort_keys=True` writes them |
| Paste.FramePlain | paste/paste.py:73-76 | the written bytes split at their first newline into the encoded header and the contents |
| Paste.HeaderOf | paste/paste.py:155-156 | a file with no newline byte has no header |
| Paste.SplitFrame | paste/paste.py:155 | splitting a framed file at its first newline gives back the header and the contents, however many newlines the contents hold |
| Paste.ReadPlainPath | paste/paste.py:146-168 | raises `path not found` exactly when the path is missing; a file with no newline, or whose header is not JSON, reads as `None`; a header that is JSON but not an object makes `.get` raise; a header that is an object reads as its `uid`, `syntax` and `expiration` (with their defaults) and the bytes after the first newline |
| Paste.ReadAlbumPath | paste/paste.py:171-181 | raises `path not found` exactly when the path is missing, and raises nothing else; an existing file reads as its JSON decoding when it decodes, and as `None` otherwise |
| Paste.FindByUid | paste/paste.py:184-200 | nothing exactly when no listed name starts with `<uid>.`; otherwise the path of the first listed name that does |
| Paste.ReadPlainUid | paste/paste.py:27-36 | an unknown uid gives `None` |
| Paste.ReadAlbumUid | paste/paste.py:15-24 | an unknown uid gives `None` |
| Paste.ReadImageUid | paste/paste.py:39-50 | an unknown uid gives `None`; otherwise the result is the bytes of the file at the path `find_by_uid` returns, the first listed name starting with `<uid>.` |
| Paste.PlainRoundTrip | paste/paste.py:53-78 | reading a plain paste by its path right after writing it gives the uid, the contents, the syntax and the expiration that were written |
| Paste.PlainFoundAfterWrite | paste/paste.py:27-36 | in a consistent directory where the uid is fresh, reading by uid right after the write gives the written paste |
| Paste.SubtypeAfterSlash | paste/paste.py:94 | `mime.split("/", 1)[1]` is the text after the first slash |
| Paste.SanitizedMimesAccepted | paste/paste.py:97-98 | every mime type that is sanitized has an extension `image_sanitize` accepts, so its extension guard never fires from this call |
| Paste.StoredImage | paste/paste.py:91-98 | bytes are stored only for an image mime type with a subtype; types other than JPEG and PNG are stored as uploaded |
| Paste.ImageMetaSorted | paste/paste.py:106-113 | the image metadata is a JSON object whose keys are in sorted order, as the album file holds them |
| Paste.WriteImageSpec | paste/paste.py:81-115 | a non-image mime type raises and writes nothing; any failure writes nothing; a success stores the bytes under `<uid>.png` and returns the metadata |
| Paste.WriteImageOutcome | paste/paste.py:90-98 | `write_image` succeeds exactly on an upload it accepts (an image type that passes the sanitizer when it is JPEG or PNG), and otherwise raises that upload's error |
| Paste.StoredImageBytes | paste/paste.py:94-98 | JPEG and PNG bytes go through the sanitizer; other image types are stored as uploaded |
| Paste.WriteImages | paste/paste.py:125-130 | a run that succeeds returns one metadata entry per image |
| Paste.WriteImagesAccepted | paste/paste.py:126-130 | an accepted first upload is stored, and the loop goes on with the rest, whose failure is the loop's failure |
| Paste.WriteImagesRefused | paste/paste.py:126-127 | a refused first upload ends the loop with its error and writes nothing |
| Paste.WriteImagesSucceed | paste/paste.py:125-130 | the loop succeeds exactly when every upload is accepted |
| Paste.WriteImagesGrows | paste/paste.py:125-130 | the loop never removes a file |
| Paste.WriteImagesStopsAt | paste/paste.py:125-130 | the first refused upload ends the loop with that upload's error |
| Paste.WriteImagesKeepsAccepted | paste/paste.py:125-130 | every image accepted before the loop stops is on disk afterwards |
| Paste.WriteImagesMetas | paste/paste.py:125-130 | a run where every image succeeds returns the metadata of each image, in upload order |
| Paste.WriteImagesFrame | paste/paste.py:125-130 | writing the images touches no file except their own `<uid>.png` files |
| Paste.WriteImagesValid | paste/paste.py:125-130 | writing the images keeps the directory consistent |
| Paste.WriteAlbumSpec | paste/paste.py:118-143 | an album of no images raises `no content` and writes nothing; a success returns the album uid of a non-empty album |
| Paste.AlbumOfNothing | paste/paste.py:132-133 | an album of no images raises `no content` and writes nothing |
| Paste.AlbumFailureWritesNoAlbum | paste/paste.py:118-143 | a failed album write leaves no album file behind |
| Paste.AlbumStopsAt | paste/paste.py:118-143 | the first refused upload fails the album with its error; no album file is written, and the images accepted before it stay on disk |
| Paste.AlbumSucceeds | paste/paste.py:118-143 | an album of at least one image succeeds exactly when every upload is accepted |
| Paste.AlbumWritten | paste/paste.py:135-143 | a successful album write returns the album uid; the file is expiring exactly when the expiration is positive, and reading it back gives the metadata of each image in order |
| Paste.WriteAlbumValid | paste/paste.py:118-143 | writing an album keeps the directory consistent, whether it succeeds or fails |
| Paste.Pastes.Write | paste/paste.py:73-76 | opening a name for writing and writing bytes replaces or adds that one file, and keeps the directory consistent |
| Paste.Pastes.Remove | paste/utils.py:105 | removes the file at the path when it exists, and reports whether it did |
| Paste.Pastes.WritePlain | paste/paste.py:53-78 | stores the framed header and contents under the plain paste name, returns the uid, and keeps the directory consistent |
| Paste.Pastes.WriteImage | paste/paste.py:81-115 | updates the directory and returns the result as the image specification says, and keeps the directory consistent |
| Paste.Pastes.WriteEach | paste/paste.py:125-130 | the loop over the images writes them one after another and stops at the first error, as the images specification says |
| Paste.Pastes.WriteAlbum | paste/paste.py:118-143 | writes the images, then raises `no content` or writes the album file, as the album specification says |
| Cleanup.HiddenNames | paste/utils.py:59 | the names the shell glob `*` skips are exactly the ones starting with a dot |
| Cleanup.Wipe | paste/utils.py:59 | `rm data/*` leaves exactly the hidden files, unchanged |
| Cleanup.WipeValid | paste/utils.py:59 | the wipe keeps the directory consistent |
| Cleanup.DirSize | paste/utils.py:55 | the directory size is at least the size of every listed file |
| Cleanup.Candidates | paste/utils.py:63-68 | the candidate paths are exactly the paths of the listed names that match `*.expires.*` |
| Cleanup.TryRemoveSpec | paste/utils.py:99-106 | fails exactly when the path is missing or the expiration is not an int; deletes exactly when the file is older than its expiration; otherwise changes nothing |
| Cleanup.TryRemove | paste/utils.py:99-106 | carries out `try_remove` on the store as its specification says |
| Cleanup.ImageEntry | paste/utils.py:81-84 | an entry that is not a dict fails inside the `try` and changes nothing; only a removal changes the directory, and it only deletes |
| Cleanup.AlbumImages | paste/utils.py:80-84 | the loop over an album's entries only deletes files |
| Cleanup.AlbumStep | paste/utils.py:75-89 | an album candidate only deletes files, and when it raises nothing has changed |
| Cleanup.PlainStep | paste/utils.py:90-97 | a plain-paste candidate only deletes files, and when it raises nothing has changed |
| Cleanup.CandidateStep | paste/utils.py:68-97 | a `.png` path is skipped; any candidate only deletes files, and when it raises nothing has changed |
| Cleanup.Sweep | paste/utils.py:68-97 | a sweep never reports a wipe and only deletes files |
| Cleanup.TaskSpec | paste/utils.py:51-97 | a run reports a wipe exactly when the directory is over the cap, and it only deletes files |
| Cleanup.TryImage | paste/utils.py:81-84 | handles one album entry on the store: looks up its `filepath` and `expiration` and tries the removal, as the entry specification says |
| Cleanup.SweepAlbum | paste/utils.py:75-89 | carries out the album branch on the store, both loops included, as its specification says |
| Cleanup.SweepPlain | paste/utils.py:90-97 | carries out the plain-paste branch on the store as its specification says |
| Cleanup.SweepOne | paste/utils.py:68-97 | carries out one candidate on the store: `.png` is skipped, `.album` is swept as an album, anything else as a plain paste |
| Cleanup.WipeStore | paste/utils.py:58-59 | replaces the store's directory by its wipe |
| Cleanup.Task | paste/utils.py:51-97 | one reaper run: wipes when the directory is over the cap, else sweeps the candidates in order until one raises |
| Cleanup.SweepAt | paste/utils.py:68-97 | the sweep from a position on is one candidate step, followed by the rest of the sweep unless that step raised |
| Cleanup.TaskOverCap | paste/utils.py:55-60 | over the cap, a run only deletes, and it keeps exactly the hidden files |
| Cleanup.TaskUnderCap | paste/utils.py:62-97 | within the cap, a run never wipes and only deletes; a file that is not expiring and that no album lists is kept unchanged |
| Cleanup.SweepShrinks | paste/utils.py:68-97 | a sweep only deletes files and keeps the directory consistent; a file that is not a candidate and that no album lists is kept |
| Cleanup.RemovePathShrinks | paste/utils.py:105 | a removal deletes at most the file at its path |
| Cleanup.PlainStepEffect | paste/utils.py:90-97 | a plain-paste candidate is either kept or removed, and nothing else happens |
| Cleanup.PlainCandidate | paste/utils.py:90-97 | a readable plain paste with a positive int expiration is deleted exactly when its file is older than the expiration |
| Cleanup.PlainCandidateSkipped | paste/utils.py:91-96 | an unreadable plain paste, or one whose expiration is not a positive int, is left alone |
| Cleanup.NonObjectHeaderAborts | paste/utils.py:90-91 | a plain candidate whose header is JSON but not an object raises out of `read_plain_path` and ends the sweep with nothing changed |
| Cleanup.TaskAbortsOnNonObjectHeader | paste/utils.py:62-97 | within the cap, such a file as the first candidate aborts the whole run before anything is deleted |
| Cleanup.NonIterableAlbumAborts | paste/utils.py:75-80 | an album file holding a truthy number cannot be iterated, and the error ends the sweep with nothing changed |
| Cleanup.TaskAbortsOnNonIterableAlbum | paste/utils.py:62-97 | within the cap, such an album as the first candidate aborts the whole run before anything is deleted |
| Cleanup.WrittenPasteReaped | paste/utils.py:63-97 | a paste written with a positive expiration is a candidate, and it is deleted exactly when it is older than its expiration |
| Cleanup.AlbumSkipped | paste/utils.py:76-78 | an unreadable or falsy album is left alone |
| Cleanup.AlbumImagesUnreachable | paste/utils.py:80-84 | entries whose image cannot be stat'ed or looked up change nothing, and the flag keeps its value |
| Cleanup.AlbumOfGoneImagesKept | paste/utils.py:79-89 | an album whose images are all gone or unreadable is never removed |
| Cleanup.AlbumImagesSnoc | paste/utils.py:80-84 | each entry's `try_remove` overwrites the flag unless it raised |
| Cleanup.AlbumLastEntryDecides | paste/utils.py:79-89 | when the last entry's `try_remove` does not raise, it alone decides whether the album file is removed |
| Cleanup.AlbumCandidate | paste/utils.py:79-89 | a non-empty album list sweeps its images, then removes the album file exactly when the flag ended up set |
| Routes.KeepAlnum | paste/routes.py:44 | the filtered syntax is no longer than the input, is made only of ASCII letters and digits, and holds exactly the input's letters and digits |
| Routes.KeepAlnumDrops | paste/routes.py:44 | a character that is not an ASCII letter or digit is dropped |
| Routes.KeepAlnumAppend | paste/routes.py:44 | filtering a concatenation filters each part |
| Routes.KeepAlnumKeeps | paste/routes.py:44 | a string of letters and digits passes unchanged |
| Routes.KeepAlnumIdempotent | paste/routes.py:44 | filtering twice is filtering once |
| Routes.SyntaxOf | paste/routes.py:44 | the stored syntax is only letters and digits |
| Routes.SyntaxDefault | paste/routes.py:44 | a form without a language gives the syntax `plain` |
| Routes.PasteView | paste/routes.py:15-37 | an unknown kind raises `bad URL`; an unknown plain paste raises `not found`; an unknown album renders an empty album page |
| Routes.PlainExpiration | paste/routes.py:45 | the plain paste's expiration is always within 1..2419200 |
| Routes.PastePlainSpec | paste/routes.py:40-55 | raises `No content` exactly when the body is missing or empty, and writes nothing then; a success returns the uid and stores the paste |
| Routes.PastePlain | paste/routes.py:40-55 | carries out the plain paste route on the store as its specification says |
| Routes.PastedPlainViewed | paste/routes.py:40-55 | a pasted body is expiring, shows as a paste page with the filtered syntax and the sanitized expiration, and its raw view is the body |
| Routes.Kept | paste/routes.py:68-73 | the kept uploads are no more than the files, and none are kept exactly when no file name has an allowed extension |
| Routes.Collect | paste/routes.py:68-73 | the loops collect at most one upload per file |
| Routes.ExtensionsExclusive | paste/routes.py:60 | a file name ends with at most one of the allowed extensions |
| Routes.ReadsOnce | paste/routes.py:69-73 | the inner loop reads a file exactly once when its extension is allowed, and never otherwise |
| Routes.CollectKept | paste/routes.py:68-73 | the nested loops keep exactly the allowed uploads, in order |
| Routes.CollectUploads | paste/routes.py:68-73 | the nested loops build the list the collection function describes |
| Routes.ImageExpiration | paste/routes.py:61 | the album expiration is always within 1..2419200 |
| Routes.PasteImgSpec | paste/routes.py:58-89 | no files, or no file with an allowed extension, raises `no content` before anything is written |
| Routes.PasteImg | paste/routes.py:58-89 | carries out the image route on the store as its specification says |
| Routes.FreshAlbumRead | paste/routes.py:78-79 | in a consistent directory with fresh uids, the album just written reads back by its uid as the metadata of each image in order |
| Routes.RedirectFor | paste/routes.py:79-84 | a read that raises passes its error on, an album that reads as `None` fails at `len`, and an album of several images redirects to the album view |
| Routes.RedirectForAlbum | paste/routes.py:81-84 | an album of more than one image redirects to the album view; a single image redirects to that image's raw view |
| Routes.PastedImagesRedirect | paste/routes.py:78-84 | when every kept upload is stored, the route redirects to the album for several images and to the first image for one |

## Left out

- Asynchrony, the application factory, `loop_task`, templates, `url_for`, `jsonify` and the error handler: they do not change what is stored, read or deleted. The routes return the redirect target or the response payload as a value.
- `uuid.uuid4()`, `request.remote_addr`, the clock, `magic.from_buffer` and the PIL library are parameters. Their own behaviour (which bytes are an image, how shrinking and saving work) is not modelled.
- `Utils.ImageSanitize`: the pixel copy that strips EXIF is folded into the imaging library's `save`.
- File times are whole seconds, and an `os.stat` of a value that is not a string (an integer would be taken as a file descriptor) is modelled as failing.
- Paths outside the data directory count as missing. A uid holding glob characters, and names holding whitespace or newlines (which `find` and `strip` would split or trim), are not modelled. `find` is not recursive here, because the data directory holds no subdirectories.
- The size check sums `Path('data')`, which is relative to the working directory. The wipe, the `find` and the writes use `data` under the settings directory. The model has one directory, so it does not model a server started from another working directory, where the size check reads another folder.
- `try_remove` reads the clock on every call. The model passes one `now` to a whole reaper run.
- The imaging library's `save` is a total function here; a save that raises is not modelled.
- `json.loads` accepts the escape of a lone surrogate such as `\ud800`. The model's decoder refuses it, so a file holding one reads as `None` in the model.
- `os.popen` runs `rm` without waiting for it; the model applies the wipe at once.
- `str.lower` is modelled for ASCII letters only.
- `Json.DecodeBytes`: JSON is modelled without floating-point numbers, and UTF-8 decoding only for ASCII bytes. Every header this program writes is ASCII, because `json.dumps` escapes everything else.
- `ReadPlainPath` keeps the contents as bytes. It does not model the `decode('utf-8', 'ignore')` that drops invalid sequences.
- `int()` parsing of form, query and environment strings is not modelled. Expirations arrive as integers, and a text the source would reject with `ValueError` is outside the model.
- `PASTE_HOST` and `PASTE_PORT` are read but not modelled, because nothing in the core uses them.
- Python's error messages are approximated by fixed strings. Only which error is raised, and where, is modelled.
- `Routes.PasteView`: an unknown image uid is modelled as the `TypeError` that `len(None)` raises inside the mime sniffer. For a known image the sniffer is a parameter, and its result is used only as a header.
- `Cleanup.AlbumCandidate`: an album that decodes to a dict or a string is iterated in the source, but every lookup on its keys or characters fails inside the `try`, so the model treats it as a no-op.
- `Paste.WriteImages`: its own contract gives only the length of the result. The contents are stated by `Paste.WriteImagesMetas`, and the effect on the directory by `Paste.WriteImagesFrame` and `Paste.WriteImagesValid`.

Where the code and its surrounding description differ, the model follows the code:

- `sanitize_expiration` keeps every value from 1 to 86399. Only values of 0 or less become 86400.
- `write_album` does not catch the errors of `write_image`. One upload with an allowed extension but an unaccepted mime type fails the whole album, and the images already written stay on disk with no album file to list them (`Paste.AlbumStopsAt`). `Paste.ImageNameNotExpiring` shows the reaper never reaches them; only a wipe over the size cap removes them.
- Whether an album file is removed depends only on the last entry whose `try_remove` did not raise (`Cleanup.AlbumLastEntryDecides`). It does not depend on all of the album's images being gone.
- An album entry's `filepath` can name any file, so "no other file is deleted" holds only for files no album lists (`Cleanup.TaskUnderCap`).
- The size check counts hidden files, but the wipe keeps them (`Cleanup.TaskOverCap`).
- `read_plain_path` calls `.get` outside its `try`. A plain paste whose header is valid JSON but not an object (a list, say) makes it raise, and the reaper does not catch that error: the whole run stops at that file (`Cleanup.TaskAbortsOnNonObjectHeader`).
- The album loop `for image in album` is outside the `try` too. An album file holding a truthy number or `true` cannot be iterated, and that error also stops the whole run (`Cleanup.TaskAbortsOnNonIterableAlbum`).
