/**
 * The pure parts of the upload to Google Drive: the unique file name built
 * from the uploader's email, the time of the upload and the original file
 * name, and the request body whose `parents` field is set only when a target
 * folder is configured. The Drive call itself is not modelled; its outcome
 * reaches the upload handler as an `UploadResult` value.
 */
module GoogleDrive {
  import opened Options
  import opened Strings

  /** The arguments of `uploadToGoogleDrive` other than the file's bytes. */
  datatype UploadCall = UploadCall(fileName: string, mimeType: string, email: string)

  /** What `uploadToGoogleDrive` reports: the created file on success, a message on failure. */
  datatype UploadResult = UploadResult(
    success: bool,
    fileId: Option<string>,
    fileName: Option<string>,
    webViewLink: Option<string>,
    error: Option<string>)

  /** The request body of `files.create`; `parents` is absent unless a folder is configured. */
  datatype RequestBody = RequestBody(name: string, description: string, parents: Option<seq<string>>)

  /** The characters `[a-zA-Z0-9]`. */
  predicate IsAsciiAlnum(c: char) {
    'a' <= c <= 'z' || 'A' <= c <= 'Z' || '0' <= c <= '9'
  }

  /** `email.replace(/[^a-zA-Z0-9]/g, '_')`. */
  function SanitizeEmail(email: string): (r: string)
    ensures |r| == |email|
    ensures forall i :: 0 <= i < |r| ==> IsAsciiAlnum(r[i]) || r[i] == '_'
    ensures forall i :: 0 <= i < |email| ==> r[i] == (if IsAsciiAlnum(email[i]) then email[i] else '_')
  {
    if email == [] then []
    else [if IsAsciiAlnum(email[0]) then email[0] else '_'] + SanitizeEmail(email[1..])
  }

  /** `timestamp.replace(/[:.]/g, '-')`. */
  function StampForName(timestamp: string): (r: string)
    ensures |r| == |timestamp|
    ensures ':' !in r && '.' !in r
    ensures forall i :: 0 <= i < |r| ==> r[i] == (if timestamp[i] in ":." then '-' else timestamp[i])
  {
    if timestamp == [] then []
    else [if timestamp[0] in ":." then '-' else timestamp[0]] + StampForName(timestamp[1..])
  }

  /**
   * `fileName.split('.').pop() || 'mp4'`: the text after the last `.` (the
   * whole name when there is none), or `mp4` when that text is empty.
   */
  function Extension(fileName: string): (ext: string)
    ensures ext != [] && '.' !in ext
    ensures fileName == [] || fileName[|fileName| - 1] == '.' ==> ext == "mp4"
    ensures fileName != [] && fileName[|fileName| - 1] != '.' ==>
      |ext| <= |fileName| && ext == fileName[|fileName| - |ext|..]
      && (|ext| < |fileName| ==> fileName[|fileName| - |ext| - 1] == '.')
  {
    var last := LastPiece(fileName, '.');
    SplitLast(fileName, '.');
    LastPieceFree(fileName, '.');
    if last == [] then "mp4" else last
  }

  /** A name ending in `.` followed by a non-empty dot-free text has that text as its extension. */
  lemma ExtensionAfterLastDot(stem: string, ext: string)
    requires ext != [] && '.' !in ext
    ensures Extension(stem + "." + ext) == ext
  {
    var s := stem + "." + ext;
    var e := Extension(s);
    assert s[|s| - 1] == ext[|ext| - 1];
    assert s[|s| - |ext| - 1] == '.';
    assert s[|s| - |ext|..] == ext;
  }

  /** A name without any `.` is its own extension; `mp4` is used only for an empty name or one ending in `.`. */
  lemma ExtensionWithoutDot(fileName: string)
    requires fileName != [] && '.' !in fileName
    ensures Extension(fileName) == fileName
  {
  }

  /** The name the video is stored under: `${sanitizedEmail}_${timestamp}.${extension}`. */
  function UniqueFileName(email: string, timestamp: string, fileName: string): (name: string)
    ensures |name| == |email| + 1 + |timestamp| + 1 + |Extension(fileName)|
  {
    SanitizeEmail(email) + "_" + StampForName(timestamp) + "." + Extension(fileName)
  }

  /**
   * The stored name has exactly one `.`, between the sanitised email and
   * timestamp and the extension.
   */
  lemma UniqueFileNameParts(email: string, timestamp: string, fileName: string)
    ensures Split(UniqueFileName(email, timestamp, fileName), '.')
      == [SanitizeEmail(email) + "_" + StampForName(timestamp), Extension(fileName)]
  {
    StemDotFree(email, timestamp);
    SplitAtOnlyDot(SanitizeEmail(email) + "_" + StampForName(timestamp), Extension(fileName));
  }

  /** The stored name keeps the original file's extension. */
  lemma UniqueFileNameExtension(email: string, timestamp: string, fileName: string)
    ensures Extension(UniqueFileName(email, timestamp, fileName)) == Extension(fileName)
  {
    StemDotFree(email, timestamp);
    SplitAtOnlyDot(SanitizeEmail(email) + "_" + StampForName(timestamp), Extension(fileName));
  }

  /** The stored name starts with the sanitised email followed by `_`. */
  lemma UniqueFileNamePrefix(email: string, timestamp: string, fileName: string)
    ensures var name := UniqueFileName(email, timestamp, fileName);
      name[..|email|] == SanitizeEmail(email) && name[|email|] == '_'
  {
    var san := SanitizeEmail(email);
    var withSep := san + "_";
    var stem := withSep + StampForName(timestamp);
    var dotted := stem + ".";
    TakeOfConcat(dotted, Extension(fileName), |san|);
    TakeOfConcat(stem, ".", |san|);
    TakeOfConcat(withSep, StampForName(timestamp), |san|);
    TakeOfConcat(san, "_", |san|);
    assert san[..|san|] == san;
  }

  /** A prefix of `a + b` no longer than `a` is a prefix of `a`. */
  lemma TakeOfConcat(a: string, b: string, k: nat)
    requires k <= |a|
    ensures (a + b)[..k] == a[..k]
  {
  }

  /** Neither the sanitised email nor the stamped time holds a `.`. */
  lemma StemDotFree(email: string, timestamp: string)
    ensures '.' !in SanitizeEmail(email) + "_" + StampForName(timestamp)
  {
    assert '.' !in SanitizeEmail(email);
  }

  /** A dot-free stem and a dot-free extension joined by `.` split back into the two. */
  lemma SplitAtOnlyDot(stem: string, ext: string)
    requires '.' !in stem && ext != [] && '.' !in ext
    ensures Split(stem + "." + ext, '.') == [stem, ext]
    ensures Extension(stem + "." + ext) == ext
  {
    assert Join([stem, ext], '.') == stem + "." + ext;
    SplitJoin([stem, ext], '.');
    ExtensionAfterLastDot(stem, ext);
  }

  /** The request body of the upload; `parents` is set only when `folderId` is configured. */
  function FileRequestBody(email: string, fileName: string, timestamp: string, describedAt: string,
                           folderId: Option<string>): (body: RequestBody)
    ensures body.name == UniqueFileName(email, timestamp, fileName)
    ensures body.parents.Some? <==> folderId.Some? && folderId.value != ""
    ensures body.parents.Some? ==> body.parents.value == [folderId.value]
  {
    var body := RequestBody(UniqueFileName(email, timestamp, fileName),
                            "Uploaded by: " + email + " at " + describedAt, None);
    if folderId.Some? && folderId.value != "" then body.(parents := Some([folderId.value])) else body
  }
}
