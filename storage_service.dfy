/** The upload rules of the storage service: the accepted content types and
    extensions, the extension taken from a file name, the content type that is
    signed, and the object key a receipt is stored under. The signing itself
    and the file writes are not part of this model. */
module StorageService {
  import opened Base
  import opened Text
  import opened StorageConfig

  const OCTET_STREAM: string := "application/octet-stream"

  /** The content type an extension stands for, `application/octet-stream`
      for any extension not on the list. */
  function MimeOfExtension(ext: string): (m: string)
    ensures ToLowerAscii(ext) in ALLOWED_EXTENSIONS <==> m in ALLOWED_MIME_TYPES
    ensures ToLowerAscii(ext) !in ALLOWED_EXTENSIONS <==> m == OCTET_STREAM
  {
    var e := ToLowerAscii(ext);
    if e == "jpg" || e == "jpeg" then "image/jpeg"
    else if e == "png" then "image/png"
    else if e == "pdf" then "application/pdf"
    else OCTET_STREAM
  }

  /** `normalizeMimeByExtension`: a supplied (non-empty) content type as it
      is, otherwise the type of the extension. */
  function NormalizeMimeByExtension(contentType: Option<string>, ext: Option<string>): (m: string)
    ensures Truthy(contentType) ==> m == contentType.value
    ensures !Truthy(contentType) ==> m == MimeOfExtension(ext.GetOr(""))
  {
    if Truthy(contentType) then contentType.value else MimeOfExtension(ext.GetOr(""))
  }

  /** Without a content type, the extension alone decides: an allowed
      extension gives an allowed type, any other `application/octet-stream`. */
  lemma NormalizedFromExtension(contentType: Option<string>, ext: string)
    requires !Truthy(contentType)
    ensures ToLowerAscii(ext) in ALLOWED_EXTENSIONS ==> NormalizeMimeByExtension(contentType, Some(ext)) in ALLOWED_MIME_TYPES
    ensures ToLowerAscii(ext) !in ALLOWED_EXTENSIONS ==> NormalizeMimeByExtension(contentType, Some(ext)) == OCTET_STREAM
  {
  }

  /** `isAllowedUpload`: the content type is on the list, or the
      lower-cased extension is. */
  predicate IsAllowedUpload(contentType: Option<string>, ext: Option<string>) {
    contentType.GetOr("") in ALLOWED_MIME_TYPES || ToLowerAscii(ext.GetOr("")) in ALLOWED_EXTENSIONS
  }

  /** The content-type test is exact while the extension test ignores case,
      and either alone admits an upload. */
  lemma AllowedUploadCases()
    ensures IsAllowedUpload(Some("text/html"), Some("PNG"))
    ensures IsAllowedUpload(Some("application/pdf"), None)
    ensures !IsAllowedUpload(Some("IMAGE/PNG"), Some("gif"))
  {
    assert ToLowerAscii("PNG") == "png";
    assert ToLowerAscii("gif") == "gif";
  }

  /** `(name.split(".").pop() || "bin").toLowerCase()`: the lower-cased text
      after the last dot, `bin` when that text is empty. */
  function UploadExt(name: string): (e: string)
    ensures e != "" && '.' !in e && ToLowerAscii(e) == e
  {
    var parts := Split(name, '.');
    var last := parts[|parts| - 1];
    var e := ToLowerAscii(if last == "" then "bin" else last);
    ToLowerIdempotent(if last == "" then "bin" else last);
    assert forall i :: 0 <= i < |e| ==> e[i] != '.' by {
      forall i | 0 <= i < |e| ensures e[i] != '.' {
        assert (if last == "" then "bin" else last)[i] != '.';
      }
    }
    e
  }

  /** A name `base.ext` gives the lower-cased `ext`, whatever dots `base`
      holds. */
  lemma UploadExtOfDotted(base: string, ext: string)
    requires ext != "" && '.' !in ext
    ensures UploadExt(base + "." + ext) == ToLowerAscii(ext)
  {
    assert base + "." + ext == base + ['.'] + ext;
    SplitConcat(base, ext, '.');
    SplitPlain(ext, '.');
  }

  /** A name without a dot is its own extension; one ending in a dot has the
      extension `bin`. */
  lemma UploadExtUndotted(name: string)
    requires '.' !in name
    ensures name != "" ==> UploadExt(name) == ToLowerAscii(name)
    ensures UploadExt(name + ".") == "bin"
  {
    SplitPlain(name, '.');
    assert name + "." == name + ['.'] + "";
    SplitConcat(name, "", '.');
    assert ToLowerAscii("bin") == "bin";
  }

  /** `receipts/{userId}/{time}-{random}.{ext}` with the given separator
      between the first three parts (`path.join` uses the platform's). */
  function ObjectKey(userId: int, now: Time, rand: string, ext: string, sep: char): string {
    "receipts" + [sep] + (IntToString(userId) + [sep] + ObjectName(now, rand, ext))
  }

  /** The last part of the key: `{time}-{random}.{ext}`. */
  function ObjectName(now: Time, rand: string, ext: string): string {
    IntToString(now) + "-" + rand + "." + ext
  }

  /** The S3 key names its owner: split on `/` it has three parts, the
      second of which reads back as the user id. */
  lemma ObjectKeyOwner(userId: int, now: Time, rand: string, ext: string)
    requires '/' !in rand && '/' !in ext
    ensures var parts := Split(ObjectKey(userId, now, rand, ext, '/'), '/');
            |parts| == 3 && parts[0] == "receipts" && ParseInt(parts[1]) == Some(userId)
  {
    var file := ObjectName(now, rand, ext);
    IntToStringChars(userId, '/');
    IntToStringChars(now, '/');
    assert '/' !in file;
    SplitAfterPiece("receipts", IntToString(userId) + ['/'] + file, '/');
    SplitAfterPiece(IntToString(userId), file, '/');
    SplitPlain(file, '/');
    ParseIntToString(userId);
  }

  /** The key keeps the upload's extension: read back from the key, it is
      the one taken from the file name. */
  lemma ObjectKeyExt(userId: int, now: Time, rand: string, name: string, sep: char)
    ensures UploadExt(ObjectKey(userId, now, rand, UploadExt(name), sep)) == UploadExt(name)
  {
    var ext := UploadExt(name);
    var stem := "receipts" + [sep] + (IntToString(userId) + [sep] + (IntToString(now) + "-" + rand));
    assert ObjectKey(userId, now, rand, ext, sep) == stem + "." + ext;
    UploadExtOfDotted(stem, ext);
  }

  /** The outcome of `issueS3PutPresign`, without the signed URL: the key to
      upload to and the content type that is signed, or the status of the
      error it throws. */
  datatype PutPresign = PutRefused(status: Status) | PutIssued(key: string, contentType: string)

  /** `issueS3PutPresign`: no bucket is an error without a status (500), an
      upload neither of whose type or extension is allowed is 400; otherwise
      the key under the user's folder and the supplied content type (or the
      extension's when it is empty). `now` and `rand` stand for
      `Date.now()` and the random base-36 suffix. */
  function IssuePutPresign(bucket: Option<string>, userId: int, filename: string, contentType: string,
                           now: Time, rand: string): (r: PutPresign)
    ensures r == PutRefused(INTERNAL_ERROR) <==> !Truthy(bucket)
    ensures r == PutRefused(BAD_REQUEST) <==> Truthy(bucket) && !IsAllowedUpload(Some(contentType), Some(UploadExt(filename)))
    ensures r.PutIssued? ==> r.key == ObjectKey(userId, now, rand, UploadExt(filename), '/')
    ensures r.PutIssued? <==> Truthy(bucket) && IsAllowedUpload(Some(contentType), Some(UploadExt(filename)))
    ensures r.PutIssued? && contentType != "" ==> r.contentType == contentType
    ensures r.PutIssued? && contentType == "" ==> r.contentType == MimeOfExtension(UploadExt(filename))
    ensures r.PutIssued? ==> r.contentType in ALLOWED_MIME_TYPES || UploadExt(filename) in ALLOWED_EXTENSIONS
  {
    if !Truthy(bucket) then PutRefused(INTERNAL_ERROR)
    else
      var ext := UploadExt(filename);
      if !IsAllowedUpload(Some(contentType), Some(ext)) then PutRefused(BAD_REQUEST)
      else
        var normalized := if contentType in ALLOWED_MIME_TYPES then contentType
                          else NormalizeMimeByExtension(Some(contentType), Some(ext));
        PutIssued(ObjectKey(userId, now, rand, ext, '/'), normalized)
  }

  /** A content type off the list is signed as supplied when the extension is
      allowed: `text/html` for `photo.png`. */
  lemma UnlistedTypeIsSigned(bucket: string, userId: int, now: Time, rand: string)
    requires bucket != ""
    ensures "text/html" !in ALLOWED_MIME_TYPES
    ensures IssuePutPresign(Some(bucket), userId, "photo.png", "text/html", now, rand)
            == PutIssued(ObjectKey(userId, now, rand, "png", '/'), "text/html")
  {
    assert "photo.png" == "photo" + "." + "png";
    UploadExtOfDotted("photo", "png");
    assert ToLowerAscii("png") == "png";
    assert IsAllowedUpload(Some("text/html"), Some("png"));
  }
}
