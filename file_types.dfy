/** The upload allow-list: which file names count as images, judged by the
    text after the last '.' of the name, compared without regard to case. */
module FileTypes {

  datatype Option<T> = None | Some(value: T)

  /** The extensions an upload may carry (lower case). */
  const AllowedExtensions: set<string> := {"png", "jpg", "jpeg", "gif"}

  /** Lower-cases one character; only the ASCII letters A-Z are mapped. */
  function LowerChar(c: char): char
  {
    if 'A' <= c <= 'Z' then (c as int + 32) as char else c
  }

  /** Lower-cases a string character by character. */
  function Lower(s: string): (r: string)
    ensures |r| == |s|
    ensures forall i :: 0 <= i < |s| ==> r[i] == LowerChar(s[i])
  {
    seq(|s|, i requires 0 <= i < |s| => LowerChar(s[i]))
  }

  /** No character of `s` is a '.'. */
  predicate DotFree(s: string)
  {
    forall k :: 0 <= k < |s| ==> s[k] != '.'
  }

  /** The position of the last '.' in `s`: the place where a split from the
      right at most once cuts the name in two. */
  function LastDot(s: string): (r: Option<nat>)
    ensures r.None? <==> DotFree(s)
    ensures r.Some? ==> r.value < |s| && s[r.value] == '.' && DotFree(s[r.value + 1..])
  {
    if s == [] then None
    else if s[|s| - 1] == '.' then Some(|s| - 1)
    else LastDot(s[..|s| - 1])
  }

  /** A '.' followed only by dot-free text is the last '.', so the split
      point is unique. */
  lemma LastDotUnique(s: string, i: nat)
    requires i < |s| && s[i] == '.' && DotFree(s[i + 1..])
    ensures LastDot(s) == Some(i)
  {
  }

  /** The extension of a file name: everything after its last '.', or None
      when the name has no '.' at all. */
  function Extension(filename: string): (r: Option<string>)
    ensures r.Some? <==> '.' in filename
    ensures r.Some? ==>
      && DotFree(r.value)
      && |r.value| < |filename|
      && filename[|filename| - |r.value| - 1] == '.'
      && filename[|filename| - |r.value|..] == r.value
  {
    match LastDot(filename)
    case None => None
    case Some(i) => Some(filename[i + 1..])
  }

  /** A file name is allowed when it has a '.' and its lower-cased extension
      is on the allow-list. */
  predicate AllowedFile(filename: string)
  {
    match Extension(filename)
    case None => false
    case Some(ext) => Lower(ext) in AllowedExtensions
  }

  /** AllowedFile, restated without LastDot or Extension: some '.' is followed
      by dot-free text whose lower-case form is an allowed extension. */
  lemma AllowedFileMeaning(filename: string)
    ensures AllowedFile(filename) <==>
      exists i :: 0 <= i < |filename| && filename[i] == '.' && DotFree(filename[i + 1..])
                  && Lower(filename[i + 1..]) in AllowedExtensions
  {
  }

  /** Only the final extension decides: whatever the stem holds (dots, other
      extensions, nothing at all), `stem.ext` is allowed exactly when `ext`
      lower-cases to an allowed extension. */
  lemma FinalExtensionDecides(stem: string, ext: string)
    requires DotFree(ext)
    ensures Extension(stem + "." + ext) == Some(ext)
    ensures AllowedFile(stem + "." + ext) <==> Lower(ext) in AllowedExtensions
  {
    var f := stem + "." + ext;
    assert f[|stem| + 1..] == ext;
    LastDotUnique(f, |stem|);
  }

  /** Lower-casing keeps every '.' where it was and maps no other character
      to '.', and lower-casing twice is lower-casing once. */
  lemma LowerKeepsDots(s: string)
    ensures DotFree(Lower(s)) <==> DotFree(s)
    ensures forall i :: 0 <= i < |s| ==> (Lower(s)[i] == '.' <==> s[i] == '.')
    ensures Lower(Lower(s)) == Lower(s)
  {
  }

  /** The extension of a lower-cased name is the lower-cased extension. */
  lemma ExtensionOfLower(filename: string)
    ensures Extension(Lower(filename)).Some? == Extension(filename).Some?
    ensures Extension(filename).Some? ==>
      Extension(Lower(filename)).value == Lower(Extension(filename).value)
  {
    var low := Lower(filename);
    LowerKeepsDots(filename);
    var d := LastDot(filename);
    if d.Some? {
      var i := d.value;
      var e := filename[i + 1..];
      assert low[i + 1..] == Lower(e);
      LowerKeepsDots(e);
      LastDotUnique(low, i);
    }
  }

  /** Lower-casing a name does not change whether it is allowed. */
  lemma AllowedFileIgnoresCase(filename: string)
    ensures AllowedFile(Lower(filename)) == AllowedFile(filename)
  {
    ExtensionOfLower(filename);
    if Extension(filename).Some? {
      LowerKeepsDots(Extension(filename).value);
    }
  }

  /** A second, earlier extension is ignored: "x.png.exe" is refused. */
  lemma InnerExtensionIgnored()
    ensures !AllowedFile("x.png.exe")
  {
  }

  /** Upper case is accepted: "x.exe.PNG" is allowed. */
  lemma UpperCaseExtensionAccepted()
    ensures AllowedFile("x.exe.PNG")
  {
    var ext := "PNG";
    assert "x.exe.PNG" == "x.exe" + "." + ext;
    assert DotFree(ext);
    FinalExtensionDecides("x.exe", ext);
    var low := Lower(ext);
    assert low[0] == 'p' && low[1] == 'n' && low[2] == 'g';
    assert low == "png";
  }

  /** A trailing '.' leaves an empty extension, which is refused. */
  lemma TrailingDotRefused()
    ensures !AllowedFile("x.")
  {
  }

  /** A name that is only an extension, ".png", is allowed. */
  lemma BareExtensionAccepted()
    ensures AllowedFile(".png")
  {
    assert ".png" == "" + "." + "png";
    FinalExtensionDecides("", "png");
    assert Lower("png") == "png";
  }

  /** Without a '.', even a name spelled like an extension is refused. */
  lemma NoDotRefused()
    ensures !AllowedFile("png")
  {
  }
}
