/**
 * The zip-only upload endpoint. It takes the first multipart field, checks the file name
 * (a `.zip` suffix after lower-casing), the exact content type `application/zip` and a
 * 100 MiB running size bound while reading the chunks, and then stores the bytes in the
 * object store under the original file name. It does not use the file-type registry and
 * checks no signature.
 *
 * The object store is not modelled: its reply to the one upload call is an input, and the
 * call itself is returned as an `Upload` record.
 */
module FileService {
  import opened Wrappers
  import opened Text
  import opened Http
  import opened Multipart

  const MaxFileSize: nat := 100 * 1024 * 1024
  const ZipContentType: string := "application/zip"

  datatype Body =
    | ErrorBody(error: string)
    | UploadedBody(message: string, fileName: string, size: nat)

  datatype Response = Response(status: StatusCode, body: Body)

  /** The object-store upload the endpoint issues: the key and the bytes. */
  datatype Upload = Upload(key: string, data: Bytes)

  function ErrorResponse(status: StatusCode, message: string): Response
  {
    Response(status, ErrorBody(message))
  }

  function SuccessResponse(fileName: string, size: nat): Response
  {
    Response(StatusOk, UploadedBody("File uploaded successfully", fileName, size))
  }

  /** The file name ends with `.zip` once lower-cased. */
  predicate HasZipSuffix(name: string)
  {
    EndsWith(LowerAscii(name), ".zip")
  }

  /** The field passes the name and content-type checks. */
  predicate HeadersAccepted(field: Field)
  {
    field.fileName.Some? && HasZipSuffix(field.fileName.value) && field.contentType.GetOr("") == ZipContentType
  }

  /**
   * The endpoint's answer and the upload it issues, given what parsing the request yields
   * (a parse error, no field, or the first field) and what the store replies to an upload.
   */
  function UploadOutcome(next: Result<Option<Field>, string>, stored: Outcome<string>): (Response, Option<Upload>)
  {
    match next
    case Failure(_) => (ErrorResponse(StatusBadRequest, "Failed to parse multipart data"), None)
    case Success(None) => (ErrorResponse(StatusBadRequest, "No file provided"), None)
    case Success(Some(field)) =>
      if field.fileName.None? then (ErrorResponse(StatusBadRequest, "No filename provided"), None)
      else if !HasZipSuffix(field.fileName.value) then (ErrorResponse(StatusUnsupportedMediaType, "Only .zip files are allowed"), None)
      else if field.contentType.GetOr("") != ZipContentType then (ErrorResponse(StatusUnsupportedMediaType, "Only .zip files are allowed"), None)
      else
        var chunks := field.chunks;
        var k := FirstStop(chunks, MaxFileSize);
        if k < |chunks| then
          if chunks[k].Failure? then (ErrorResponse(StatusInternalServerError, "Failed to read chunk: " + chunks[k].error), None)
          else (ErrorResponse(StatusPayloadTooLarge, "File exceeds maximum allowed size"), None)
        else
          assert chunks[..k] == chunks;
          var data := Payload(chunks);
          var name := field.fileName.value;
          var response :=
            if stored.Pass? then SuccessResponse(name, |data|)
            else ErrorResponse(StatusInternalServerError, "Failed to upload file to S3: " + stored.error);
          (response, Some(Upload(name, data)))
  }

  /**
   * Handles one upload request: the checks in order, then the chunk loop with its running
   * total, then the single store call.
   */
  method UploadFile(next: Result<Option<Field>, string>, stored: Outcome<string>) returns (response: Response, upload: Option<Upload>)
    ensures (response, upload) == UploadOutcome(next, stored)
  {
    upload := None;
    if next.Failure? {
      return ErrorResponse(StatusBadRequest, "Failed to parse multipart data"), None;
    }
    if next.value.None? {
      return ErrorResponse(StatusBadRequest, "No file provided"), None;
    }
    var field := next.value.value;
    if field.fileName.None? {
      return ErrorResponse(StatusBadRequest, "No filename provided"), None;
    }
    var fileName := field.fileName.value;
    if !EndsWith(LowerAscii(fileName), ".zip") {
      return ErrorResponse(StatusUnsupportedMediaType, "Only .zip files are allowed"), None;
    }
    var contentType := field.contentType.GetOr("");
    if contentType != ZipContentType {
      return ErrorResponse(StatusUnsupportedMediaType, "Only .zip files are allowed"), None;
    }

    var chunks := field.chunks;
    var totalBytes: nat := 0;
    var buffer: Bytes := [];
    var i := 0;
    assert chunks[..0] == [];
    while i < |chunks|
      invariant 0 <= i <= |chunks|
      invariant AllOk(chunks[..i])
      invariant buffer == Payload(chunks[..i])
      invariant totalBytes == |buffer| <= MaxFileSize
    {
      if chunks[i].Failure? {
        FirstStopIs(chunks, MaxFileSize, i);
        return ErrorResponse(StatusInternalServerError, "Failed to read chunk: " + chunks[i].error), None;
      }
      var data := chunks[i].value;
      totalBytes := totalBytes + |data|;
      if totalBytes > MaxFileSize {
        FirstStopIs(chunks, MaxFileSize, i);
        return ErrorResponse(StatusPayloadTooLarge, "File exceeds maximum allowed size"), None;
      }
      PayloadStep(chunks, i);
      buffer := buffer + data;
      i := i + 1;
    }
    assert chunks[..i] == chunks;
    FirstStopIs(chunks, MaxFileSize, i);

    upload := Some(Upload(fileName, buffer));
    if stored.Pass? {
      response := SuccessResponse(fileName, totalBytes);
    } else {
      response := ErrorResponse(StatusInternalServerError, "Failed to upload file to S3: " + stored.error);
    }
  }
}

/** Properties of the upload endpoint, and how it differs from the registry's ZIP rules. */
module FileServiceProperties {
  import opened Wrappers
  import opened Text
  import opened Http
  import opened Multipart
  import opened FileService
  import FileUtils
  import FileUtilsProperties

  /**
   * Every answer is a 200 carrying the upload's report, or an error body under 400, 413,
   * 415 or 500; the report names the key the bytes were stored under and their count.
   */
  lemma ResponseShape(next: Result<Option<Field>, string>, stored: Outcome<string>)
    ensures UploadOutcome(next, stored).0.status == StatusOk <==> UploadOutcome(next, stored).0.body.UploadedBody?
    ensures UploadOutcome(next, stored).0.body.UploadedBody? ==>
      && UploadOutcome(next, stored).1.Some?
      && UploadOutcome(next, stored).0.body == UploadedBody(
           "File uploaded successfully", UploadOutcome(next, stored).1.value.key, |UploadOutcome(next, stored).1.value.data|)
    ensures UploadOutcome(next, stored).0.body.ErrorBody? ==>
      UploadOutcome(next, stored).0.status in {StatusBadRequest, StatusPayloadTooLarge, StatusUnsupportedMediaType, StatusInternalServerError}
  {
  }

  /** With no field, or a request that does not parse, the answer is 400 and nothing is stored. */
  lemma NoFieldRejected(e: string, stored: Outcome<string>)
    ensures UploadOutcome(Success(None), stored) == (ErrorResponse(StatusBadRequest, "No file provided"), None)
    ensures UploadOutcome(Failure(e), stored) == (ErrorResponse(StatusBadRequest, "Failed to parse multipart data"), None)
  {
  }

  /**
   * An upload is issued exactly when the name and content type pass, every chunk is read
   * and the bytes fit 100 MiB; it is keyed by the original file name, carries exactly the
   * bytes read, and the response reports that many bytes, or 500 if the store failed.
   */
  lemma UploadIssuedIff(field: Field, stored: Outcome<string>)
    ensures UploadOutcome(Success(Some(field)), stored).1.Some? <==>
      HeadersAccepted(field) && AllOk(field.chunks) && |Payload(field.chunks)| <= MaxFileSize
    ensures UploadOutcome(Success(Some(field)), stored).1.Some? ==>
      && UploadOutcome(Success(Some(field)), stored).1.value == Upload(field.fileName.value, Payload(field.chunks))
      && UploadOutcome(Success(Some(field)), stored).0 ==
           if stored.Pass? then SuccessResponse(field.fileName.value, |Payload(field.chunks)|)
           else ErrorResponse(StatusInternalServerError, "Failed to upload file to S3: " + stored.error)
  {
    FirstStopFullIff(field.chunks, MaxFileSize);
  }

  /**
   * Readable chunks whose bytes exceed 100 MiB are refused with 413 whatever follows them:
   * the check happens while reading, and nothing is stored.
   */
  lemma OversizeRejectedMidStream(field: Field, pre: seq<Chunk>, rest: seq<Chunk>, stored: Outcome<string>)
    requires HeadersAccepted(field)
    requires AllOk(pre) && |Payload(pre)| > MaxFileSize
    ensures UploadOutcome(Success(Some(field.(chunks := pre + rest))), stored) ==
      (ErrorResponse(StatusPayloadTooLarge, "File exceeds maximum allowed size"), None)
  {
    OversizeStopsInside(pre, MaxFileSize);
    FirstStopPrefixClosed(pre, rest, MaxFileSize);
    assert (pre + rest)[FirstStop(pre, MaxFileSize)] == pre[FirstStop(pre, MaxFileSize)];
  }

  /** A read error after readable chunks that fit gives 500 with the error's text. */
  lemma ReadErrorGives500(field: Field, pre: seq<Chunk>, e: string, rest: seq<Chunk>, stored: Outcome<string>)
    requires HeadersAccepted(field)
    requires AllOk(pre) && |Payload(pre)| <= MaxFileSize
    ensures UploadOutcome(Success(Some(field.(chunks := pre + [Failure(e)] + rest))), stored) ==
      (ErrorResponse(StatusInternalServerError, "Failed to read chunk: " + e), None)
  {
    ReadErrorStops(pre, e, rest, MaxFileSize);
    assert (pre + [Failure(e)] + rest)[|pre|] == Failure(e);
  }

  /**
   * The name is checked before the content type, and both before the stream: a missing
   * name is 400, a name without the suffix is 415 whatever the content type, an accepted
   * name with any content type but exactly `application/zip` (a missing one read as empty)
   * is 415, and until both pass the chunks do not matter.
   */
  lemma NameCheckedFirst(field: Field, other: seq<Chunk>, stored: Outcome<string>)
    ensures field.fileName.None? ==>
      UploadOutcome(Success(Some(field)), stored) == (ErrorResponse(StatusBadRequest, "No filename provided"), None)
    ensures field.fileName.Some? && !HasZipSuffix(field.fileName.value) ==>
      UploadOutcome(Success(Some(field)), stored) == (ErrorResponse(StatusUnsupportedMediaType, "Only .zip files are allowed"), None)
    ensures field.fileName.Some? && HasZipSuffix(field.fileName.value) && field.contentType.GetOr("") != ZipContentType ==>
      UploadOutcome(Success(Some(field)), stored) == (ErrorResponse(StatusUnsupportedMediaType, "Only .zip files are allowed"), None)
    ensures !HeadersAccepted(field) ==>
      UploadOutcome(Success(Some(field)), stored) == UploadOutcome(Success(Some(field.(chunks := other))), stored)
      && UploadOutcome(Success(Some(field)), stored).1.None?
  {
  }

  /** A name with the suffix ends in a dot followed by three letters that lower-case to `zip`. */
  lemma ZipSuffixShape(name: string)
    requires HasZipSuffix(name)
    ensures |name| >= 4 && name[|name| - 4] == '.'
    ensures forall j :: 0 <= j < 3 ==> LowerAsciiChar(name[|name| - 3 + j]) == "zip"[j]
  {
    var n := |name|;
    var lower := LowerAscii(name);
    assert lower[n - 4..] == ".zip";
    assert lower[n - 4] == '.';
    forall j | 0 <= j < 3 ensures LowerAsciiChar(name[n - 3 + j]) == "zip"[j] {
      assert lower[n - 3 + j] == lower[n - 4..][j + 1];
    }
  }

  /** Three characters that lower-case to `zip` pass the registry's ZIP extension rule. */
  lemma ZipLetters(ext: string)
    requires |ext| == 3 && forall j :: 0 <= j < 3 ==> LowerAsciiChar(ext[j]) == "zip"[j]
    ensures '.' !in ext
    ensures FileUtils.ZipType.AllowsExtension(ext)
  {
    FileUtilsProperties.ZipAccepts(ext);
    assert forall j :: 0 <= j < 3 ==> LowerAsciiChar("zip"[j]) == "zip"[j];
    forall j | 0 <= j < 3 ensures ext[j] != '.' {
      assert LowerAsciiChar(ext[j]) != '.';
    }
  }

  /**
   * Every name the endpoint accepts also passes the registry's ZIP extension check: its
   * extension is `zip` up to case.
   */
  lemma ZipSuffixPassesZipExtension(name: string)
    requires HasZipSuffix(name)
    ensures FileUtils.ZipType.ValidateExtension(name)
  {
    ZipSuffixShape(name);
    var n := |name|;
    var ext := name[n - 3..];
    assert forall j :: 0 <= j < 3 ==> ext[j] == name[n - 3 + j];
    ZipLetters(ext);
    assert name == name[..n - 4] + "." + ext;
    FileUtilsProperties.ExtensionAfterLastDot(name[..n - 4], ext);
  }

  /**
   * The endpoint is stricter than the registry's ZIP rules on names and content types: a
   * bare `zip` has the right extension but no `.zip` suffix, and `Application/Zip` passes the
   * registry's case-insensitive check but not the exact comparison.
   */
  lemma StricterThanRegistryOnHeaders()
    ensures !HasZipSuffix("zip") && FileUtils.ZipType.ValidateExtension("zip")
    ensures HasZipSuffix("A.ZIP")
    ensures "Application/Zip" != ZipContentType && FileUtils.ZipType.ValidateContentType("Application/Zip")
  {
    FileUtilsProperties.ExtensionOfDotless("zip");
    assert EqIgnoreAsciiCase(FileUtils.ZipType.extensions[0], "zip");
    assert LowerAscii("A.ZIP") == "a.zip";
    assert EqIgnoreAsciiCase(FileUtils.ZipType.contentTypes[0], "Application/Zip");
  }

  /**
   * The endpoint checks no signature: one chunk of any bytes up to 100 MiB, named `*.zip`
   * and declared `application/zip`, is stored as it is, although the registry's ZIP type
   * would refuse the same bytes when they do not start with the ZIP signature.
   */
  lemma NoSignatureCheck(name: string, data: Bytes, stored: Outcome<string>)
    requires HasZipSuffix(name) && |data| <= FileUtils.ZipType.maxSize
    ensures UploadOutcome(Success(Some(Field(Some(name), Some(ZipContentType), [Success(data)]))), stored).1
      == Some(Upload(name, data))
    ensures !FileUtils.ZipType.ValidateMagicNumber(data) ==>
      FileUtils.StreamVerdict(FileUtils.ZipType, [Success(data)]) == Failure(FileUtils.InvalidFormat("ZIP"))
  {
    var chunks: seq<Chunk> := [Success(data)];
    assert chunks[..0] == [];
    assert Payload(chunks) == data;
    UploadIssuedIff(Field(Some(name), Some(ZipContentType), chunks), stored);
    FileUtilsProperties.StreamSucceedsIff(FileUtils.ZipType, chunks);
    assert chunks[..1] == chunks;
    FirstStopIs(chunks, FileUtils.ZipType.maxSize, 1);
  }
}
