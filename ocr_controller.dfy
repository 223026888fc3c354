/** The receipt-reading handler: the guards in front of the extraction
    service, which is not part of this model. */
module OcrController {
  import opened Base
  import opened Text
  import opened StorageConfig
  import opened StorageService
  import opened UploadsController

  /** The document types other than images the extraction accepts. */
  const PDF_TYPES: seq<string> := ["application/pdf", "application/x-pdf", "application/acrobat"]

  /** `/^image\//i` or `/^application\/(pdf|x-pdf|acrobat)$/i`. */
  predicate AcceptedMime(mime: string) {
    StartsWith(ToLowerAscii(mime), "image/") || ToLowerAscii(mime) in PDF_TYPES
  }

  /** What `parseReceipt` does: refuse with a status, or hand the file to the
      extraction service with this content type. */
  datatype OcrOutcome = OcrRefused(status: Status) | Extract(mimeType: string)

  /** `parseReceipt`: 503 without an API key (checked first), 400 without a
      file, 415 for a type that is neither an image nor a PDF; otherwise the
      file goes to extraction with its content type (empty when missing). */
  function ParseReceipt(apiKey: Option<string>, file: Option<UploadedFile>): (r: OcrOutcome)
    ensures r == OcrRefused(SERVICE_UNAVAILABLE) <==> !Truthy(apiKey)
    ensures r == OcrRefused(BAD_REQUEST) <==> Truthy(apiKey) && file.None?
    ensures r == OcrRefused(UNSUPPORTED_MEDIA_TYPE) <==>
              Truthy(apiKey) && file.Some? && !AcceptedMime(file.value.mimetype)
    ensures r.Extract? <==> Truthy(apiKey) && file.Some? && AcceptedMime(file.value.mimetype)
    ensures r.Extract? ==> r.mimeType == file.value.mimetype
  {
    if !Truthy(apiKey) then OcrRefused(SERVICE_UNAVAILABLE)
    else if file.None? then OcrRefused(BAD_REQUEST)
    else
      var mime := file.value.mimetype;
      if AcceptedMime(mime) then Extract(mime) else OcrRefused(UNSUPPORTED_MEDIA_TYPE)
  }

  /** The classification ignores letter case. */
  lemma AcceptedMimeIgnoresCase(mime: string)
    ensures AcceptedMime(ToLowerAscii(mime)) == AcceptedMime(mime)
  {
    ToLowerIdempotent(mime);
  }

  /** Every content type an upload may be signed with on the strength of its
      type is one the extraction accepts. */
  lemma UploadTypesAreReadable(mime: string)
    requires mime in ALLOWED_MIME_TYPES
    ensures AcceptedMime(mime)
  {
    if mime == "image/jpeg" || mime == "image/png" {
      assert ToLowerAscii(mime) == mime;
      assert ToLowerAscii(mime)[..6] == "image/";
    } else {
      assert ToLowerAscii(mime) == mime;
    }
  }

  /** The default type of a stored file, and a file sent without a type, are
      refused with 415. */
  lemma UntypedFilesRefused(apiKey: string, name: string)
    requires apiKey != ""
    ensures ParseReceipt(Some(apiKey), Some(UploadedFile(name, ""))) == OcrRefused(UNSUPPORTED_MEDIA_TYPE)
    ensures ParseReceipt(Some(apiKey), Some(UploadedFile(name, OCTET_STREAM))) == OcrRefused(UNSUPPORTED_MEDIA_TYPE)
  {
    assert ToLowerAscii(OCTET_STREAM) == OCTET_STREAM;
    assert OCTET_STREAM[..6][0] == 'a' && "image/"[0] == 'i';
  }
}
