/** The request handlers of the image service, recast as operations on an
    abstract upload folder: a map from stored file name to file bytes. */
module ImageService {
  import opened FileTypes

  newtype byte = x: int | 0 <= x < 256

  /** A JSON reply: an HTTP status code and its "message" field. */
  datatype Response = Response(status: int, message: string)

  /** What fetching an image answers: the stored bytes, or a JSON error. */
  datatype Reply = Send(content: seq<byte>) | Json(response: Response)

  const MsgNoFilePart := "No file part"
  const MsgNoSelectedFile := "No selected file"
  const MsgInvalidFileType := "Invalid file type"
  const MsgInvalidImage := "Invalid image file"
  const MsgUploaded := "File successfully uploaded"
  const MsgDeleted := "Image(s) deleted successfully"
  const MsgNoSuchFile := "File does not exist"

  /** The multipart field named "file" as the client sent it, if at all. */
  datatype Submission = Missing | Part(filename: string, content: seq<byte>)

  /** The outcome of the checks on an upload: the message of the first check
      that failed, or the lower-cased extension the stored name will carry. */
  datatype Verdict = Reject(message: string) | Accept(ext: string)

  // ---------------------------------------------------------------------
  // The upload stream
  // ---------------------------------------------------------------------

  /** An uploaded file: its client-side name and a read position over its
      bytes. The image decoder reads from the current position and the save
      writes from the current position to the end. */
  class FileStorage {
    const filename: string
    const data: seq<byte>
    var pos: nat

    ghost predicate Valid()
      reads this
    {
      pos <= |data|
    }

    constructor (filename: string, data: seq<byte>)
      ensures Valid()
      ensures this.filename == filename && this.data == data && pos == 0
    {
      this.filename := filename;
      this.data := data;
      pos := 0;
    }

    /** The bytes not yet read. */
    function Remaining(): seq<byte>
      reads this
      requires Valid()
    {
      data[pos..]
    }

    /** Reads up to `n` bytes: the stream advances past what it returns. */
    method Read(n: nat) returns (chunk: seq<byte>)
      requires Valid()
      modifies this
      ensures Valid()
      ensures |chunk| == if n <= |old(Remaining())| then n else |old(Remaining())|
      ensures old(Remaining()) == chunk + Remaining()
    {
      var k := if n <= |data| - pos then n else |data| - pos;
      chunk := data[pos..pos + k];
      pos := pos + k;
    }

    /** Moves the read position to `offset`. */
    method Seek(offset: nat)
      requires offset <= |data|
      modifies this
      ensures Valid() && pos == offset
    {
      pos := offset;
    }
  }

  /** The "file" part of a request's files, seen as a value. */
  function Submitted(parts: map<string, FileStorage>): Submission
  {
    if "file" in parts then Part(parts["file"].filename, parts["file"].data) else Missing
  }

  // ---------------------------------------------------------------------
  // The checks on an upload and the name it is stored under
  // ---------------------------------------------------------------------

  /** The checks of an upload, in order; the first one that fails decides the
      answer. `isImage` stands for the image library's open-and-verify. */
  function Screen(sub: Submission, isImage: seq<byte> -> bool): (v: Verdict)
    ensures v.Accept? <==> sub.Part? && AllowedFile(sub.filename) && isImage(sub.content)
    ensures v.Accept? ==> v.ext in AllowedExtensions && Extension(sub.filename).Some?
                          && v.ext == Lower(Extension(sub.filename).value)
    ensures sub.Missing? ==> v == Reject(MsgNoFilePart)
    ensures sub.Part? && sub.filename == "" ==> v == Reject(MsgNoSelectedFile)
    ensures sub.Part? && sub.filename != "" && !AllowedFile(sub.filename) ==> v == Reject(MsgInvalidFileType)
    ensures sub.Part? && AllowedFile(sub.filename) && !isImage(sub.content) ==> v == Reject(MsgInvalidImage)
  {
    match sub
    case Missing => Reject(MsgNoFilePart)
    case Part(filename, content) =>
      if filename == "" then Reject(MsgNoSelectedFile)
      else if !AllowedFile(filename) then Reject(MsgInvalidFileType)
      else if !isImage(content) then Reject(MsgInvalidImage)
      else Accept(Lower(Extension(filename).value))
  }

  /** The image decoder is consulted only once the name has passed: the
      answer to a nameless or wrongly named upload does not depend on it. */
  lemma DecoderOnlyForAllowedNames(sub: Submission, isImage: seq<byte> -> bool, other: seq<byte> -> bool)
    requires !(sub.Part? && AllowedFile(sub.filename))
    ensures Screen(sub, isImage) == Screen(sub, other)
    ensures Screen(sub, isImage).Reject?
  {
  }

  predicate IsHexDigit(c: char)
  {
    '0' <= c <= '9' || 'a' <= c <= 'f'
  }

  /** The text form of a random UUID: 32 lower-case hex digits in groups of
      8-4-4-4-12 separated by '-'. */
  predicate IsUuid(u: string)
  {
    |u| == 36 && forall i :: 0 <= i < 36 ==> if i in {8, 13, 18, 23} then u[i] == '-' else IsHexDigit(u[i])
  }

  /** The stored name of an accepted upload: a fresh UUID, a '.', and the
      lower-cased extension of the client's file name. */
  function StoredName(uuid: string, ext: string): string
  {
    uuid + "." + ext
  }

  /** A stored name passes the allow-list itself, and its extension is the
      one it was built from. */
  lemma StoredNameAllowed(uuid: string, ext: string)
    requires ext in AllowedExtensions
    ensures Extension(StoredName(uuid, ext)) == Some(ext)
    ensures AllowedFile(StoredName(uuid, ext))
  {
    assert DotFree(ext) && Lower(ext) == ext by {
      if ext == "png" {
        assert Lower("png") == "png";
      } else if ext == "jpg" {
        assert Lower("jpg") == "jpg";
      } else if ext == "jpeg" {
        assert Lower("jpeg") == "jpeg";
      } else {
        assert Lower("gif") == "gif";
      }
    }
    FinalExtensionDecides(uuid, ext);
  }

  predicate SafeChar(c: char)
  {
    'a' <= c <= 'z' || 'A' <= c <= 'Z' || '0' <= c <= '9' || c == '_' || c == '.' || c == '-'
  }

  /** A name that file-name sanitising leaves as it is: non-empty, made only
      of ASCII letters, digits, '_', '.' and '-', and neither starting nor
      ending with '.' or '_'. */
  predicate SanitisingFixed(name: string)
  {
    && |name| > 0
    && (forall i :: 0 <= i < |name| ==> SafeChar(name[i]))
    && name[0] != '.' && name[0] != '_'
    && name[|name| - 1] != '.' && name[|name| - 1] != '_'
  }

  /** Stored names are left unchanged by file-name sanitising, which is why
      the model stores under StoredName itself. */
  lemma StoredNameSanitisingFixed(uuid: string, ext: string)
    requires IsUuid(uuid) && ext in AllowedExtensions
    ensures SanitisingFixed(StoredName(uuid, ext))
  {
  }

  // ---------------------------------------------------------------------
  // The listing filter and the delete specification
  // ---------------------------------------------------------------------

  predicate Distinct(s: seq<string>)
  {
    forall i, j :: 0 <= i < j < |s| ==> s[i] != s[j]
  }

  /** A directory listing of `m`: every stored name exactly once, in some
      order the file system chooses. */
  predicate IsListing(listing: seq<string>, m: map<string, seq<byte>>)
  {
    && Distinct(listing)
    && (forall n :: n in listing ==> n in m)
    && (forall n :: n in m ==> n in listing)
  }

  /** The names of `listing` that pass the allow-list, in listing order. */
  function AllowedNames(listing: seq<string>): seq<string>
  {
    if listing == [] then []
    else
      var last := listing[|listing| - 1];
      AllowedNames(listing[..|listing| - 1]) + if AllowedFile(last) then [last] else []
  }

  lemma {:induction false} AllowedNamesMembers(listing: seq<string>)
    ensures forall n :: n in AllowedNames(listing) <==> n in listing && AllowedFile(n)
  {
    if listing != [] {
      var init := listing[..|listing| - 1];
      AllowedNamesMembers(init);
      assert listing == init + [listing[|listing| - 1]];
    }
  }

  lemma {:induction false} AllowedNamesDistinct(listing: seq<string>)
    requires Distinct(listing)
    ensures Distinct(AllowedNames(listing))
  {
    if listing != [] {
      var init := listing[..|listing| - 1];
      AllowedNamesDistinct(init);
      AllowedNamesMembers(init);
      assert listing[|listing| - 1] !in init;
    }
  }

  /** Filtering commutes with concatenation, so the filter keeps the
      listing's order. */
  lemma {:induction false} AllowedNamesConcat(a: seq<string>, b: seq<string>)
    ensures AllowedNames(a + b) == AllowedNames(a) + AllowedNames(b)
  {
    if b == [] {
      assert a + b == a;
    } else {
      var init, last := b[..|b| - 1], b[|b| - 1];
      AllowedNamesConcat(a, init);
      assert (a + b)[..|a + b| - 1] == a + init;
      assert (a + b)[|a + b| - 1] == last;
      var tail := if AllowedFile(last) then [last] else [];
      calc {
        AllowedNames(a + b);
        AllowedNames(a + init) + tail;
        AllowedNames(a) + AllowedNames(init) + tail;
        AllowedNames(a) + (AllowedNames(init) + tail);
        AllowedNames(a) + AllowedNames(b);
      }
    }
  }

  /** `m` after every name of `names` that it holds has been removed. */
  function Deleted(m: map<string, seq<byte>>, names: seq<string>): map<string, seq<byte>>
  {
    map n | n in m && n !in names :: m[n]
  }

  /** Deleting the same names twice leaves what deleting them once left. */
  lemma DeleteIdempotent(m: map<string, seq<byte>>, names: seq<string>)
    ensures Deleted(Deleted(m, names), names) == Deleted(m, names)
  {
  }

  /** Names the store does not hold change nothing. */
  lemma AbsentNamesSkipped(m: map<string, seq<byte>>, names: seq<string>, absent: seq<string>)
    requires forall n :: n in absent ==> n !in m
    ensures Deleted(m, names + absent) == Deleted(m, names)
  {
  }

  /** Every stored name passes the allow-list and every stored content is an
      image: what the upload checks guarantee of the folder. */
  ghost predicate OnlyImages(m: map<string, seq<byte>>, isImage: seq<byte> -> bool)
  {
    forall n :: n in m ==> AllowedFile(n) && isImage(m[n])
  }

  lemma DeletePreservesOnlyImages(m: map<string, seq<byte>>, names: seq<string>, isImage: seq<byte> -> bool)
    requires OnlyImages(m, isImage)
    ensures OnlyImages(Deleted(m, names), isImage)
  {
  }

  // ---------------------------------------------------------------------
  // The upload folder and the handlers
  // ---------------------------------------------------------------------

  class Store {
    var files: map<string, seq<byte>>

    constructor (files: map<string, seq<byte>>)
      ensures this.files == files
    {
      this.files := files;
    }

    /** Handles an upload. `parts` are the request's files; `uuid` is the
        freshly generated identifier; `isImage` is the image library's
        verdict on a content; `consumed` is how many bytes the decoder reads
        from the stream; `saveOk` says whether writing the file succeeds. */
    method Upload(parts: map<string, FileStorage>, uuid: string, isImage: seq<byte> -> bool,
                  consumed: nat, saveOk: bool)
      returns (r: Response)
      requires IsUuid(uuid)
      requires "file" in parts ==> parts["file"].pos == 0
      modifies this, if "file" in parts then {parts["file"]} else {}
      ensures var v := Screen(Submitted(parts), isImage);
        && (v.Reject? ==> r == Response(400, v.message) && files == old(files))
        && (v.Accept? && !saveOk ==> r == Response(400, MsgInvalidImage) && files == old(files))
        && (v.Accept? && saveOk ==>
              && r == Response(200, MsgUploaded)
              && files == old(files)[StoredName(uuid, v.ext) := parts["file"].data]
              && AllowedFile(StoredName(uuid, v.ext))
              && files.Keys == old(files).Keys + {StoredName(uuid, v.ext)}
              && (StoredName(uuid, v.ext) !in old(files) ==> |files| == |old(files)| + 1))
      ensures r.status == 200 || files == old(files)
      ensures OnlyImages(old(files), isImage) ==> OnlyImages(files, isImage)
    {
      var sub := Submitted(parts);
      assert sub.Part? <==> "file" in parts;
      var v := Screen(sub, isImage);
      match v
      case Reject(message) =>
        r := Response(400, message);
      case Accept(ext) =>
        var file := parts["file"];
        assert sub == Part(file.filename, file.data);
        assert isImage(file.data);
        var decoded := file.Read(consumed);
        file.Seek(0);
        assert file.Remaining() == file.data;
        StoredNameAllowed(uuid, ext);
        if saveOk {
          var name := StoredName(uuid, ext);
          files := files[name := file.Remaining()];
          r := Response(200, MsgUploaded);
          assert files.Keys == old(files).Keys + {name};
          assert OnlyImages(old(files), isImage) ==> OnlyImages(files, isImage) by {
            if OnlyImages(old(files), isImage) {
              forall n | n in files
                ensures AllowedFile(n) && isImage(files[n])
              {
                if n != name {
                  assert n in old(files);
                }
              }
            }
          }
        } else {
          r := Response(400, MsgInvalidImage);
        }
    }

    /** The stored names that pass the allow-list, in listing order. */
    method ShowImages(listing: seq<string>) returns (images: seq<string>)
      requires IsListing(listing, files)
      ensures images == AllowedNames(listing)
      ensures forall n :: n in images <==> n in files && AllowedFile(n)
      ensures Distinct(images)
    {
      images := [];
      for i := 0 to |listing|
        invariant images == AllowedNames(listing[..i])
      {
        assert listing[..i + 1][..i] == listing[..i];
        if AllowedFile(listing[i]) {
          images := images + [listing[i]];
        }
      }
      assert listing[..|listing|] == listing;
      AllowedNamesMembers(listing);
      AllowedNamesDistinct(listing);
    }

    /** Removes each named file that exists; names that do not are skipped. */
    method DeleteImage(filenames: seq<string>) returns (r: Response)
      modifies this
      ensures files == Deleted(old(files), filenames)
      ensures r == Response(200, MsgDeleted)
    {
      for i := 0 to |filenames|
        invariant files == Deleted(old(files), filenames[..i])
      {
        var name := filenames[i];
        if name in files {
          files := files - {name};
        }
        assert filenames[..i + 1] == filenames[..i] + [name];
      }
      assert filenames[..|filenames|] == filenames;
      r := Response(200, MsgDeleted);
    }

    /** The stored bytes under `filename`, or a 404 when there are none. */
    function SendImage(filename: string): (r: Reply)
      reads this
      ensures r.Send? <==> filename in files
      ensures r.Send? ==> r.content == files[filename]
      ensures r.Json? ==> r.response == Response(404, MsgNoSuchFile)
    {
      if filename in files then Send(files[filename]) else Json(Response(404, MsgNoSuchFile))
    }
  }

  /** Uploading a valid image and then fetching it under its stored name
      answers with exactly the uploaded bytes, whatever the decoder read. */
  method UploadThenFetch(store: Store, file: FileStorage, uuid: string, isImage: seq<byte> -> bool, consumed: nat)
    returns (r: Response, reply: Reply)
    requires IsUuid(uuid) && file.pos == 0
    requires AllowedFile(file.filename) && isImage(file.data)
    modifies store, file
    ensures r == Response(200, MsgUploaded)
    ensures reply == Send(file.data)
  {
    var parts := map["file" := file];
    r := store.Upload(parts, uuid, isImage, consumed, true);
    var name := StoredName(uuid, Lower(Extension(file.filename).value));
    reply := store.SendImage(name);
  }
}
