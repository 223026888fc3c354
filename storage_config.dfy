/** Where receipts are stored, and which uploads are allowed. */
module StorageConfig {
  import opened Base
  import opened Text

  datatype StorageMode = S3 | Local

  /** `resolveStorageMode`: `FILE_STORAGE_MODE`, lower-cased, names the mode
      when it is `s3` or `local`; any other value (or none) picks S3 exactly
      when a bucket is configured. ASCII lower-casing decides the comparison
      exactly: no other character lower-cases to a letter of `s3` or `local`. */
  function ResolveStorageMode(envMode: Option<string>, bucket: Option<string>): (m: StorageMode)
    ensures ToLowerAscii(envMode.GetOr("")) == "s3" ==> m == S3
    ensures ToLowerAscii(envMode.GetOr("")) == "local" ==> m == Local
    ensures ToLowerAscii(envMode.GetOr("")) !in {"s3", "local"} ==> (m == S3 <==> Truthy(bucket))
  {
    var mode := ToLowerAscii(envMode.GetOr(""));
    if mode == "s3" then S3
    else if mode == "local" then Local
    else if Truthy(bucket) then S3 else Local
  }

  /** An explicit mode overrides the bucket: the same setting gives the same
      mode with or without a bucket, in any letter case. */
  lemma ExplicitModeWins(envMode: string, bucket1: Option<string>, bucket2: Option<string>)
    requires ToLowerAscii(envMode) in {"s3", "local"}
    ensures ResolveStorageMode(Some(envMode), bucket1) == ResolveStorageMode(Some(envMode), bucket2)
  {
  }

  /** `S3` and `s3` both select S3 storage even without a bucket. */
  lemma ModeIsCaseInsensitive(bucket: Option<string>)
    ensures ResolveStorageMode(Some("S3"), bucket) == S3 && ResolveStorageMode(Some("s3"), bucket) == S3
    ensures ResolveStorageMode(Some("LOCAL"), bucket) == Local && ResolveStorageMode(Some("Local"), bucket) == Local
  {
    assert ToLowerAscii("S3") == "s3";
    assert ToLowerAscii("s3") == "s3";
    assert ToLowerAscii("LOCAL") == "local";
    assert ToLowerAscii("Local") == "local";
  }

  const ALLOWED_MIME_TYPES: seq<string> :=
    ["image/jpeg", "image/png", "application/pdf", "application/x-pdf", "application/acrobat"]

  const ALLOWED_EXTENSIONS: seq<string> := ["jpg", "jpeg", "png", "pdf"]
}
