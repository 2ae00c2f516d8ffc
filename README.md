# Image upload service: a verified model

The service accepts image uploads over HTTP, lists them, serves them and deletes
them. It has one allow-list of extensions (`png`, `jpg`, `jpeg`, `gif`) and eight
route handlers. This project models the allow-list check and the four handlers
that upload, list, delete and serve images: upload, show images, delete images
and send image. The upload folder is an abstract store, a map from stored file name to file bytes.

- `file_types.dfy`, module `FileTypes`: the allow-list check as pure functions.
  `LastDot` finds where a split from the right at most once cuts the name.
  `Extension` is the text after that point. `AllowedFile` lower-cases the
  extension and tests it against `AllowedExtensions`.
- `image_service.dfy`, module `ImageService`:
  - `FileStorage` is the uploaded file: its client-side name, its bytes and a read position.
  - `Screen` is the ordered ladder of upload checks. It returns the message of
    the first check that fails, or the lower-cased extension of an accepted upload.
  - `Store` holds the folder in a `files: map<string, seq<byte>>` field.
    `Upload`, `DeleteImage` and `ShowImages` are methods with loops and
    invariants where the handler has loops. `SendImage` is a lookup.
  - The specification functions are `AllowedNames` (the listing filter) and
    `Deleted` (the folder after a batch delete). `OnlyImages` is the folder
    invariant "every stored name passes the allow-list and every stored content
    is an image".

Foreign parts are parameters:
- the image library's open-and-verify is `isImage: seq<byte> -> bool`;
- the number of bytes the decoder reads from the stream is `consumed`;
- whether writing the file raises an I/O error is `saveOk`;
- the random UUID is `uuid`, required to have the canonical 8-4-4-4-12 lower-case hex shape;
- the order in which the file system lists the folder is `listing`, required to
  name every stored file exactly once.

Behaviour of the code that the model keeps:
- The write to disk sits inside the same `try` as the image check. A failed
  write is therefore answered 400 "Invalid image file", like a bad image. The
  model answers the same, and assumes the failed write leaves nothing behind.
- The stored name is never checked against the folder. A colliding UUID would
  overwrite an existing file. `Upload` states the overwrite. It also states that
  exactly one key is added when the name was new.
- The truthiness test on the file object before `allowed_file` holds whenever
  the file name is non-empty. That has already been checked at that point, so
  the test has no branch of its own in `Screen`.

## Model

| member | source | states |
|---|---|---|
| `FileTypes.LastDot` | app.py:22 | `None` exactly when the name has no '.'; otherwise an index holding '.' with no '.' after it (the last dot) |
| `FileTypes.Extension` | app.py:22 | present exactly when the name contains '.'; then it is a dot-free suffix directly preceded by '.' |
| `FileTypes.AllowedFileMeaning` | app.py:18-22 | `AllowedFile(f)` holds iff some '.' in `f` is followed by dot-free text whose lower-case form is png, jpg, jpeg or gif (both directions) |
| `FileTypes.FinalExtensionDecides` | app.py:22 | for any stem, `stem.ext` with dot-free `ext` has extension `ext`, and is allowed iff `ext` lower-cased is on the allow-list |
| `FileTypes.ExtensionOfLower` | app.py:22 | a name has an extension iff its lower-cased form has one, and the extension of the lower-cased name is the lower-cased extension |
| `FileTypes.AllowedFileIgnoresCase` | app.py:22 | lower-casing the whole name never changes the verdict |
| `FileTypes.InnerExtensionIgnored` | app.py:22 | "x.png.exe" is refused: only the last extension counts |
| `FileTypes.UpperCaseExtensionAccepted` | app.py:22 | "x.exe.PNG" is allowed: the comparison ignores case |
| `FileTypes.TrailingDotRefused` | app.py:22 | "x." is refused: the extension is empty |
| `FileTypes.BareExtensionAccepted` | app.py:22 | ".png" is allowed: an empty stem is fine |
| `FileTypes.NoDotRefused` | app.py:22 | "png" is refused: a name without '.' never passes |
| `ImageService.Screen` | app.py:51-69 | accepted iff the part exists, its name passes the allow-list and its bytes verify as an image; the first failing check decides the message ("No file part", "No selected file", "Invalid file type", "Invalid image file"); an accepted extension is the lower-cased extension of the name and is on the allow-list |
| `ImageService.DecoderOnlyForAllowedNames` | app.py:56-59 | for a missing part or a refused name, the image decoder is never consulted: the verdict is a rejection and is the same for any decoder |
| `ImageService.StoredNameAllowed` | app.py:62 | the name `uuid.ext` built for an accepted upload has extension `ext` and itself passes the allow-list |
| `ImageService.StoredNameSanitisingFixed` | app.py:62 | the generated name is non-empty, uses only letters, digits, '_', '.', '-', and neither starts nor ends with '.' or '_', so file-name sanitising leaves it unchanged |
| `ImageService.FileStorage.Read` | app.py:58-59 | the decoder's reads: at most `n` bytes come back and the stream advances exactly past them |
| `ImageService.FileStorage.Seek` | app.py:60 | rewinding sets the read position, so the whole content is left to read |
| `ImageService.Store.Upload` | app.py:49-69 | on every rejection and on a failed write the store is unchanged and the answer is 400 with the first failing check's message; on success the answer is 200 "File successfully uploaded", the full uploaded content (whatever the decoder read) is stored under `uuid.ext`, that key passes the allow-list, no other key changes, and one key is added when the name was new; the folder invariant `OnlyImages` is preserved |
| `ImageService.AllowedNamesMembers` | app.py:74-79 | a name is in the filtered listing iff it is in the listing and passes the allow-list |
| `ImageService.AllowedNamesDistinct` | app.py:74-79 | filtering a duplicate-free listing adds no duplicates |
| `ImageService.AllowedNamesConcat` | app.py:75-79 | filtering commutes with concatenation, so the result keeps the listing's order |
| `ImageService.Store.ShowImages` | app.py:72-80 | the result is the listing filtered by the allow-list, in listing order; a name is in it iff it is stored and passes the allow-list; it has no duplicates |
| `ImageService.Store.DeleteImage` | app.py:83-91 | the store afterwards is the old store without every named key (absent names skipped), other keys keep their bytes, and the answer is always 200 "Image(s) deleted successfully" |
| `ImageService.DeleteIdempotent` | app.py:86-91 | deleting the same names twice leaves the same store as deleting them once |
| `ImageService.AbsentNamesSkipped` | app.py:89-90 | names the store does not hold change nothing |
| `ImageService.DeletePreservesOnlyImages` | app.py:86-91 | deleting keeps the folder invariant: every remaining name is allowed and every remaining content is an image |
| `ImageService.Store.SendImage` | app.py:94-100 | answers the stored bytes exactly when the name is stored, and otherwise 404 "File does not exist"; it reads the store and changes nothing |
| `ImageService.UploadThenFetch` | app.py:60-66 | after a successful upload of a valid image, fetching it under its stored name answers exactly the uploaded bytes |

## Left out

- Routing, request parsing, templates and JSON encoding are not modelled. Only
  the status codes and messages are kept. A delete request whose body is
  missing, not JSON, JSON that is not an object, or an object without a
  `filenames` key is answered with an error status before the handler's loop
  (app.py:85-86). Those paths are not modelled: `DeleteImage` takes the list of
  names as given.
- The home page listing, the two diagnostic time endpoints and the upload form
  page are not modelled. They only read the clock, the folder or a template.
- The image library's open-and-verify is an arbitrary predicate on bytes. An
  exception other than an I/O or syntax error, which the handler does not
  catch, is not modelled.
- The random UUID is a parameter. Its uniqueness is not assumed; a collision
  overwrites, as the code does.
- File-name sanitising is taken as the identity on generated names.
  `StoredNameSanitisingFixed` shows that those names contain only characters
  that sanitising keeps. The sanitiser's own code is not part of this model.
- Creation times and their formatting in the image listing are not modelled.
  `ShowImages` returns names only.
- Folder creation at start-up, path joining and path resolution are not
  modelled. That includes client-supplied names that walk out of the folder.
- ImageService.Store.DeleteImage: does not model a removal that fails. A name
  may resolve to a directory, such as `""`, `"."` or `".."`, or its removal may
  fail for any other reason, such as a denied permission. The existence test
  then passes, the removal raises (app.py:89-90), and the framework answers
  500. Names earlier in the list stay deleted. In the model every removal
  succeeds, so its answer is always 200.
- A write that fails half-way is not modelled. A failed write leaves the store
  unchanged.
- Concurrent requests and the cloud-blob storage variant are not modelled.
- `FileTypes.Lower` maps only the ASCII letters A-Z. Python's lower-casing also
  maps other letters, and that mapping is not modelled.
