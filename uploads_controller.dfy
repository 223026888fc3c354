/** The upload handlers: a presigned PUT in S3 mode, a direct upload in local
    mode, and the read URL of a transaction's receipt for members of its
    group. The S3 signature is a parameter (`sign`); the request's protocol
    and `Host` header are parameters too. */
module UploadsController {
  import opened Base
  import opened Text
  import opened Store
  import opened GroupModel
  import opened TransactionModel
  import opened StorageConfig
  import opened StorageService

  /** The part of a multipart upload the handlers read. */
  datatype UploadedFile = UploadedFile(originalname: string, mimetype: string)

  // ---- POST /uploads/presign/put

  /** `presignPut`: 503 outside S3 mode, 400 unless both `filename` and
      `contentType` are non-empty, then the service's outcome. */
  function PresignPut(mode: StorageMode, bucket: Option<string>, filename: Option<string>,
                      contentType: Option<string>, userId: int, now: Time, rand: string): (r: PutPresign)
    ensures r == PutRefused(SERVICE_UNAVAILABLE) <==> mode != S3
    ensures r == PutRefused(BAD_REQUEST) <==>
              mode == S3 && (!Truthy(filename) || !Truthy(contentType)
                             || (Truthy(bucket)
                                 && !IsAllowedUpload(contentType, Some(UploadExt(filename.value)))))
    ensures r == PutRefused(INTERNAL_ERROR) <==>
              mode == S3 && Truthy(filename) && Truthy(contentType) && !Truthy(bucket)
    ensures r.PutIssued? <==>
              mode == S3 && Truthy(filename) && Truthy(contentType) && Truthy(bucket)
              && IsAllowedUpload(contentType, Some(UploadExt(filename.value)))
    ensures r.PutIssued? ==> r.contentType == contentType.value
                             && r.key == ObjectKey(userId, now, rand, UploadExt(filename.value), '/')
  {
    if mode != S3 then PutRefused(SERVICE_UNAVAILABLE)
    else if !Truthy(filename) || !Truthy(contentType) then PutRefused(BAD_REQUEST)
    else IssuePutPresign(bucket, userId, filename.value, contentType.value, now, rand)
  }

  // ---- POST /uploads/direct

  /** The URL under which the server serves a stored file: backslashes of a
      Windows path become slashes. */
  function ServedUrl(protocol: string, host: string, key: string): (url: string)
    ensures var p := protocol + "://" + host + "/files/";
            |url| == |p| + |key| && url[..|p|] == p && '\\' !in url[|p|..]
  {
    protocol + "://" + host + "/files/" + ReplaceChar(key, '\\', '/')
  }

  /** The outcome of `direct`: the stored key, its URL and content type, or
      the refusal's status. */
  datatype DirectUpload = DirectRefused(status: Status) | Stored(url: string, key: string, contentType: string)

  /** `direct`: 503 outside local mode, 400 without a file; the file is
      stored under the user's folder with the extension of its name (`file`
      when the name is empty) and its content type defaults to
      `application/octet-stream`. `sep` is the platform's path separator. */
  function Direct(mode: StorageMode, file: Option<UploadedFile>, userId: int, now: Time, rand: string,
                  sep: char, protocol: string, host: string): (r: DirectUpload)
    ensures r == DirectRefused(SERVICE_UNAVAILABLE) <==> mode != Local
    ensures r == DirectRefused(BAD_REQUEST) <==> mode == Local && file.None?
    ensures r.Stored? <==> mode == Local && file.Some?
    ensures r.Stored? ==>
              var name := if file.value.originalname != "" then file.value.originalname else "file";
              && r.key == ObjectKey(userId, now, rand, UploadExt(name), sep)
              && r.url == ServedUrl(protocol, host, r.key)
              && r.contentType == (if file.value.mimetype != "" then file.value.mimetype else OCTET_STREAM)
  {
    if mode != Local then DirectRefused(SERVICE_UNAVAILABLE)
    else if file.None? then DirectRefused(BAD_REQUEST)
    else
      var original := if file.value.originalname != "" then file.value.originalname else "file";
      var key := ObjectKey(userId, now, rand, UploadExt(original), sep);
      Stored(ServedUrl(protocol, host, key), key,
             if file.value.mimetype != "" then file.value.mimetype else OCTET_STREAM)
  }

  /** A file without a name is stored with the extension `file`. */
  lemma UnnamedFileExtension(userId: int, now: Time, rand: string, sep: char, protocol: string, host: string,
                             mimetype: string)
    ensures Direct(Local, Some(UploadedFile("", mimetype)), userId, now, rand, sep, protocol, host).key
            == ObjectKey(userId, now, rand, "file", sep)
  {
    UploadExtUndotted("file");
    assert ToLowerAscii("file") == "file";
  }

  /** A key joined with backslashes, with its backslashes replaced, is the
      key joined with slashes. */
  lemma ObjectKeySeparators(userId: int, now: Time, rand: string, ext: string)
    requires '\\' !in rand && '\\' !in ext
    ensures ReplaceChar(ObjectKey(userId, now, rand, ext, '\\'), '\\', '/') == ObjectKey(userId, now, rand, ext, '/')
  {
    var u := IntToString(userId);
    var name := ObjectName(now, rand, ext);
    IntToStringChars(userId, '\\');
    IntToStringChars(now, '\\');
    assert '\\' !in name;
    assert ReplaceChar(['\\'], '\\', '/') == ['/'];
    ReplaceCharAbsent(u, '\\', '/');
    ReplaceCharAbsent(name, '\\', '/');
    ReplaceCharAbsent("receipts", '\\', '/');
    ReplaceCharConcat(u, ['\\'], '\\', '/');
    ReplaceCharConcat(u + ['\\'], name, '\\', '/');
    var tail := u + ['\\'] + name;
    assert ReplaceChar(tail, '\\', '/') == u + ['/'] + name;
    ReplaceCharConcat("receipts", ['\\'], '\\', '/');
    ReplaceCharConcat("receipts" + ['\\'], tail, '\\', '/');
  }

  /** The served URL does not depend on the platform: a key joined with
      backslashes is served under the same URL as one joined with slashes. */
  lemma ServedUrlSeparatorFree(protocol: string, host: string, userId: int, now: Time, rand: string, ext: string)
    requires '\\' !in rand && '\\' !in ext
    ensures ServedUrl(protocol, host, ObjectKey(userId, now, rand, ext, '\\'))
            == ServedUrl(protocol, host, ObjectKey(userId, now, rand, ext, '/'))
  {
    ObjectKeySeparators(userId, now, rand, ext);
    var slashed := ObjectKey(userId, now, rand, ext, '/');
    IntToStringChars(userId, '\\');
    IntToStringChars(now, '\\');
    assert '\\' !in ObjectName(now, rand, ext);
    assert '\\' !in slashed;
    ReplaceCharAbsent(slashed, '\\', '/');
  }

  // ---- GET /uploads/presign/get

  /** `^https?://`, in any letter case. */
  predicate IsAbsoluteHttp(v: string) {
    StartsWith(ToLowerAscii(v), "http://") || StartsWith(ToLowerAscii(v), "https://")
  }

  /** Text whose first letter is not `h` in either case is not an absolute
      `http(s)` URL. */
  lemma NotAbsoluteByFirstChar(v: string)
    requires |v| > 0 && v[0] != 'h' && v[0] != 'H'
    ensures !IsAbsoluteHttp(v)
  {
    var l := ToLowerAscii(v);
    assert l[0] != 'h';
    if |l| >= 7 {
      assert l[..7][0] == l[0];
      assert "http://"[0] == 'h' && "https://"[0] == 'h';
    }
  }

  /** The URL local mode answers for a stored receipt URL: an absolute
      `http(s)` URL as it is, otherwise the served URL of the key. */
  function LocalReceiptUrl(protocol: string, host: string, v: string): (url: string)
    ensures IsAbsoluteHttp(v) ==> url == v
    ensures !IsAbsoluteHttp(v) ==> url == ServedUrl(protocol, host, v)
  {
    if IsAbsoluteHttp(v) then v else ServedUrl(protocol, host, v)
  }

  /** The transaction a read request is about, or the lookup's error. */
  datatype Lookup = LookupFailed | Looked(tx: Option<ReceiptOwner>)

  /** A non-zero `transactionId` is looked up by key (a value PostgreSQL
      cannot bind as an `INTEGER` raises); otherwise a non-empty `key` is
      looked up among the receipt URLs; with neither there is nothing. */
  function ReceiptLookup(txs: seq<TransactionRow>, transactionId: Option<Num>, key: Option<string>): (r: Lookup)
    ensures r.LookupFailed? <==> transactionId.Some? && NumTruthy(transactionId.value)
                                 && !BindsAsInteger(transactionId.value)
    ensures r.Looked? && r.tx.None? <==>
              if transactionId.Some? && NumTruthy(transactionId.value) then
                BindsAsInteger(transactionId.value)
                && forall i :: 0 <= i < |txs| ==> txs[i].id != transactionId.value.value
              else
                !Truthy(key) || forall i :: 0 <= i < |txs| ==> txs[i].receiptUrl != key
    ensures r.Looked? && r.tx.Some? ==>
              exists i :: 0 <= i < |txs| && txs[i].id == r.tx.value.id && txs[i].groupId == r.tx.value.groupId
                          && txs[i].receiptUrl == r.tx.value.receiptUrl
    ensures r.Looked? && r.tx.Some? && transactionId.Some? && NumTruthy(transactionId.value) ==>
              r.tx.value.id == transactionId.value.value
    ensures r.Looked? && r.tx.Some? && !(transactionId.Some? && NumTruthy(transactionId.value)) ==>
              r.tx.value.receiptUrl == key
  {
    if transactionId.Some? && NumTruthy(transactionId.value) then
      if !BindsAsInteger(transactionId.value) then LookupFailed
      else
        match TransactionById(txs, transactionId.value.value)
        case None => Looked(None)
        case Some(t) => Looked(Some(ReceiptOwner(t.id, t.groupId, t.receiptUrl)))
    else if Truthy(key) then Looked(TransactionByReceiptKey(txs, key.value))
    else Looked(None)
  }

  /** A usable `transactionId` decides alone: the key is then ignored. */
  lemma TransactionIdPreferred(txs: seq<TransactionRow>, id: Num, key1: Option<string>, key2: Option<string>)
    requires NumTruthy(id)
    ensures ReceiptLookup(txs, Some(id), key1) == ReceiptLookup(txs, Some(id), key2)
  {
  }

  /** The outcome of `presignGet`: a URL or the refusal's status. */
  datatype ReadUrl = ReadRefused(status: Status) | ReadUrl(url: string)

  /** `presignGet`: 500 when the lookup raises; 404 without a transaction or
      with an empty receipt URL; 403 to a caller outside the transaction's
      group; then the local URL, or in S3 mode 500 without a bucket and the
      signed URL of the key otherwise. */
  function PresignGet(mode: StorageMode, bucket: Option<string>, txs: seq<TransactionRow>,
                      ms: seq<MembershipRow>, caller: int, transactionId: Option<Num>, key: Option<string>,
                      protocol: string, host: string, sign: string -> string): (r: ReadUrl)
    ensures var l := ReceiptLookup(txs, transactionId, key);
            && (r == ReadRefused(INTERNAL_ERROR) <==>
                  l.LookupFailed?
                  || (l.Looked? && l.tx.Some? && Truthy(l.tx.value.receiptUrl)
                      && RoleOf(ms, caller, l.tx.value.groupId).Some? && mode == S3 && !Truthy(bucket)))
            && (r.ReadUrl? <==>
                  l.Looked? && l.tx.Some? && Truthy(l.tx.value.receiptUrl)
                  && RoleOf(ms, caller, l.tx.value.groupId).Some? && (mode == Local || Truthy(bucket)))
            && (r == ReadRefused(NOT_FOUND) <==> l.Looked? && (l.tx.None? || !Truthy(l.tx.value.receiptUrl)))
            && (r == ReadRefused(FORBIDDEN) <==>
                  l.Looked? && l.tx.Some? && Truthy(l.tx.value.receiptUrl)
                  && RoleOf(ms, caller, l.tx.value.groupId).None?)
            && (r.ReadUrl? ==>
                  l.Looked? && l.tx.Some? && Truthy(l.tx.value.receiptUrl)
                  && RoleOf(ms, caller, l.tx.value.groupId).Some?
                  && (mode == Local ==> r.url == LocalReceiptUrl(protocol, host, l.tx.value.receiptUrl.value))
                  && (mode == S3 ==> Truthy(bucket) && r.url == sign(l.tx.value.receiptUrl.value)))
  {
    match ReceiptLookup(txs, transactionId, key)
    case LookupFailed => ReadRefused(INTERNAL_ERROR)
    case Looked(tx) =>
      if tx.None? || !Truthy(tx.value.receiptUrl) then ReadRefused(NOT_FOUND)
      else if RoleOf(ms, caller, tx.value.groupId).None? then ReadRefused(FORBIDDEN)
      else if mode == Local then ReadUrl(LocalReceiptUrl(protocol, host, tx.value.receiptUrl.value))
      else if !Truthy(bucket) then ReadRefused(INTERNAL_ERROR)
      else ReadUrl(sign(tx.value.receiptUrl.value))
  }

  /** A file uploaded directly and recorded as a transaction's receipt is
      read back, by its key, at the URL the upload answered, for any member
      of the transaction's group. */
  lemma DirectUploadReadBack(file: UploadedFile, userId: int, now: Time, rand: string, sep: char,
                             protocol: string, host: string, txs: seq<TransactionRow>,
                             ms: seq<MembershipRow>, caller: int, bucket: Option<string>,
                             sign: string -> string)
    requires var d := Direct(Local, Some(file), userId, now, rand, sep, protocol, host);
             var found := TransactionByReceiptKey(txs, d.key);
             found.Some? && RoleOf(ms, caller, found.value.groupId).Some?
    ensures var d := Direct(Local, Some(file), userId, now, rand, sep, protocol, host);
            PresignGet(Local, bucket, txs, ms, caller, None, Some(d.key), protocol, host, sign) == ReadUrl(d.url)
  {
    var name := if file.originalname != "" then file.originalname else "file";
    var key := ObjectKey(userId, now, rand, UploadExt(name), sep);
    assert Direct(Local, Some(file), userId, now, rand, sep, protocol, host)
           == Stored(ServedUrl(protocol, host, key), key, if file.mimetype != "" then file.mimetype else OCTET_STREAM);
    assert key[0] == 'r';
    NotAbsoluteByFirstChar(key);
    var found := TransactionByReceiptKey(txs, key);
    assert ReceiptLookup(txs, None, Some(key)) == Looked(found);
    assert found.value.receiptUrl == Some(key);
  }
}
