/**
 * The upload file-type registry and its streaming validator.
 *
 * A `FileType` describes one accepted kind of upload (name, extensions, content types,
 * signatures, size limit) and answers three questions about a candidate: is the
 * extension allowed, is the content type allowed, do the first bytes carry an allowed
 * signature. A `FileValidator` keeps the registered types in a table keyed by name and
 * validates a multipart field against one of them while reading its chunks.
 */
module FileUtils {
  import opened Wrappers
  import opened Text
  import opened Http
  import opened Multipart

  /**
   * The text after the last `.` of a file name, or the whole name when it has no dot
   * (what `split('.').last()` yields): the longest dot-free suffix.
   */
  function ExtensionOf(filename: string): (ext: string)
    ensures '.' !in ext
    ensures |ext| <= |filename| && ext == filename[|filename| - |ext|..]
    ensures |ext| < |filename| ==> filename[|filename| - |ext| - 1] == '.'
    decreases |filename|
  {
    if filename == [] || filename[|filename| - 1] == '.' then []
    else ExtensionOf(filename[..|filename| - 1]) + [filename[|filename| - 1]]
  }

  datatype FileType = FileType(
    name: string,
    extensions: seq<string>,
    contentTypes: seq<string>,
    magicNumbers: seq<Bytes>,
    maxSize: nat)
  {
    /** Some allowed extension equals the name's extension, ignoring ASCII case. */
    predicate ValidateExtension(filename: string)
    {
      AllowsExtension(ExtensionOf(filename))
    }

    /** Some allowed extension equals `extension`, ignoring ASCII case. */
    predicate AllowsExtension(extension: string)
    {
      exists i :: 0 <= i < |extensions| && EqIgnoreAsciiCase(extensions[i], extension)
    }

    /** Some allowed content type equals the given one, ignoring ASCII case. */
    predicate ValidateContentType(contentType: string)
    {
      exists i :: 0 <= i < |contentTypes| && EqIgnoreAsciiCase(contentTypes[i], contentType)
    }

    /** No signature is configured, or some configured signature is a prefix of `data`. */
    predicate ValidateMagicNumber(data: Bytes)
    {
      || magicNumbers == []
      || exists i :: 0 <= i < |magicNumbers| && |data| >= |magicNumbers[i]| && data[..|magicNumbers[i]|] == magicNumbers[i]
    }
  }

  const ZipType: FileType :=
    FileType("ZIP", ["zip"], ["application/zip"], [[0x50, 0x4B, 0x03, 0x04]], 100 * 1024 * 1024)
  const PngType: FileType :=
    FileType("PNG", ["png"], ["image/png"], [[0x89, 0x50, 0x4E, 0x47, 0x0D, 0x0A, 0x1A, 0x0A]], 10 * 1024 * 1024)
  const JpegType: FileType :=
    FileType("JPEG", ["jpg", "jpeg"], ["image/jpeg"], [[0xFF, 0xD8, 0xFF, 0xE0], [0xFF, 0xD8, 0xFF, 0xE1]], 10 * 1024 * 1024)

  /** The reasons a validation fails; each has its status code and its message. */
  datatype ValidationError =
    | UnsupportedFileType(typeName: string)
    | NoFilename
    | InvalidExtension(allowedExtensions: seq<string>)
    | InvalidContentType(allowedTypes: seq<string>)
    | ChunkReadFailed(detail: string)
    | TooLarge(maxSize: nat)
    | InvalidFormat(typeName: string)
  {
    function Code(): StatusCode
    {
      match this
      case UnsupportedFileType(_) => StatusBadRequest
      case NoFilename => StatusBadRequest
      case InvalidExtension(_) => StatusUnsupportedMediaType
      case InvalidContentType(_) => StatusUnsupportedMediaType
      case ChunkReadFailed(_) => StatusInternalServerError
      case TooLarge(_) => StatusPayloadTooLarge
      case InvalidFormat(_) => StatusUnsupportedMediaType
    }

    function Message(): string
    {
      match this
      case UnsupportedFileType(n) => "Unsupported file type: " + n
      case NoFilename => "No filename provided"
      case InvalidExtension(exts) => "Invalid file extension. Allowed extensions: " + DebugList(exts)
      case InvalidContentType(cts) => "Invalid content type. Allowed types: " + DebugList(cts)
      case ChunkReadFailed(e) => "Failed to read chunk: " + e
      case TooLarge(max) => "File exceeds maximum allowed size of " + NatToDecimal(max) + " bytes"
      case InvalidFormat(n) => "Invalid file format for " + n
    }
  }

  /** Chunks `0 .. j-1` exist, were read, and were empty. */
  predicate LeadingEmpty(chunks: seq<Chunk>, j: nat)
  {
    j <= |chunks| && forall l :: 0 <= l < j ==> chunks[l].Success? && chunks[l].value == []
  }

  /**
   * The signature check fails somewhere before index `k`: at a chunk `j` read while the
   * buffer was still empty (every earlier chunk was empty), whose bytes — the whole buffer
   * at that moment — carry no allowed signature.
   */
  predicate SignatureRejected(ft: FileType, chunks: seq<Chunk>, k: nat)
  {
    exists j :: 0 <= j < k && j < |chunks| && LeadingEmpty(chunks, j) && chunks[j].Success?
                && !ft.ValidateMagicNumber(chunks[j].value)
  }

  /**
   * What reading the field's chunks against `ft` yields: the signature failure if the check
   * failed before reading stopped, else the read error or the oversize at the stop, else
   * all of the bytes.
   */
  function StreamVerdict(ft: FileType, chunks: seq<Chunk>): Result<Bytes, ValidationError>
  {
    var k := FirstStop(chunks, ft.maxSize);
    if SignatureRejected(ft, chunks, k) then Failure(InvalidFormat(ft.name))
    else if k < |chunks| then
      if chunks[k].Failure? then Failure(ChunkReadFailed(chunks[k].error)) else Failure(TooLarge(ft.maxSize))
    else
      assert chunks[..k] == chunks;
      Success(Payload(chunks))
  }

  /** The full validation of a field against the type registered under `fileTypeName`. */
  function ValidateFileSpec(fileTypes: map<string, FileType>, fileTypeName: string, field: Field): Result<Bytes, ValidationError>
  {
    if fileTypeName !in fileTypes then Failure(UnsupportedFileType(fileTypeName))
    else
      var ft := fileTypes[fileTypeName];
      if field.fileName.None? then Failure(NoFilename)
      else if !ft.ValidateExtension(field.fileName.value) then Failure(InvalidExtension(ft.extensions))
      else if !ft.ValidateContentType(field.contentType.GetOr("")) then Failure(InvalidContentType(ft.contentTypes))
      else StreamVerdict(ft, field.chunks)
  }

  class FileValidator {
    var fileTypes: map<string, FileType>

    /** Every entry is keyed by its own name. */
    ghost predicate Valid()
      reads this
    {
      forall n :: n in fileTypes ==> fileTypes[n].name == n
    }

    /** A validator holding exactly the three built-in types. */
    constructor ()
      ensures Valid()
      ensures fileTypes == map["ZIP" := ZipType, "PNG" := PngType, "JPEG" := JpegType]
    {
      fileTypes := map[];
      new;
      RegisterDefaultTypes();
    }

    method RegisterDefaultTypes()
      requires Valid()
      modifies this
      ensures Valid()
      ensures fileTypes == old(fileTypes)["ZIP" := ZipType]["PNG" := PngType]["JPEG" := JpegType]
    {
      RegisterFileType(ZipType);
      RegisterFileType(PngType);
      RegisterFileType(JpegType);
    }

    /** Inserts `fileType` under its name, replacing any entry of that name; others are kept. */
    method RegisterFileType(fileType: FileType)
      requires Valid()
      modifies this
      ensures Valid()
      ensures fileTypes == old(fileTypes)[fileType.name := fileType]
      ensures forall n :: n in old(fileTypes) && n != fileType.name ==> n in fileTypes && fileTypes[n] == old(fileTypes)[n]
    {
      fileTypes := fileTypes[fileType.name := fileType];
    }

    /**
     * Checks, in this order, the type name, the file name, its extension and the content
     * type; only then reads the chunks.
     */
    method ValidateFile(fileTypeName: string, field: Field) returns (r: Result<Bytes, ValidationError>)
      ensures r == ValidateFileSpec(fileTypes, fileTypeName, field)
      ensures Valid() && r.Failure? && r.error.InvalidFormat? ==> r.error.typeName == fileTypeName
    {
      if fileTypeName !in fileTypes {
        return Failure(UnsupportedFileType(fileTypeName));
      }
      var fileType := fileTypes[fileTypeName];
      if field.fileName.None? {
        return Failure(NoFilename);
      }
      var filename := field.fileName.value;
      if !fileType.ValidateExtension(filename) {
        return Failure(InvalidExtension(fileType.extensions));
      }
      var contentType := field.contentType.GetOr("");
      if !fileType.ValidateContentType(contentType) {
        return Failure(InvalidContentType(fileType.contentTypes));
      }

      r := ReadChunks(fileType, field.chunks);
      InvalidFormatNamesType(fileType, field.chunks);
      assert Valid() ==> fileType.name == fileTypeName;
    }

    /**
     * Some registered type whose extension check accepts `extension` (the table's
     * iteration order is not fixed, so which one is left open), or None when none does.
     */
    method FindFileTypeByExtension(extension: string) returns (r: Option<FileType>)
      ensures r.Some? ==> r.value in fileTypes.Values && r.value.ValidateExtension(extension)
      ensures r.None? <==> forall n :: n in fileTypes ==> !fileTypes[n].ValidateExtension(extension)
      ensures Valid() && r.Some? ==> r.value.name in fileTypes && fileTypes[r.value.name] == r.value
    {
      var unseen := fileTypes.Keys;
      while unseen != {}
        invariant unseen <= fileTypes.Keys
        invariant forall n :: n in fileTypes && n !in unseen ==> !fileTypes[n].ValidateExtension(extension)
        decreases unseen
      {
        var n :| n in unseen;
        if fileTypes[n].ValidateExtension(extension) {
          return Some(fileTypes[n]);
        }
        unseen := unseen - {n};
      }
      return None;
    }
  }

  /**
   * Reads the chunks in order, stopping at a read error, at the chunk that makes the total
   * exceed the limit (before appending it), or at a failed signature check on a chunk read
   * while the buffer held only that chunk; otherwise returns every byte read.
   */
  method ReadChunks(ft: FileType, chunks: seq<Chunk>) returns (r: Result<Bytes, ValidationError>)
    ensures r == StreamVerdict(ft, chunks)
  {
    var buffer: Bytes := [];
    var totalBytes: nat := 0;
    var i := 0;
    assert chunks[..0] == [];
    while i < |chunks|
      invariant 0 <= i <= |chunks|
      invariant AllOk(chunks[..i])
      invariant buffer == Payload(chunks[..i])
      invariant totalBytes == |buffer| <= ft.maxSize
      invariant !SignatureRejected(ft, chunks, i)
    {
      var chunk := chunks[i];
      if chunk.Failure? {
        FirstStopIs(chunks, ft.maxSize, i);
        return Failure(ChunkReadFailed(chunk.error));
      }
      var data := chunk.value;
      totalBytes := totalBytes + |data|;
      if totalBytes > ft.maxSize {
        FirstStopIs(chunks, ft.maxSize, i);
        return Failure(TooLarge(ft.maxSize));
      }
      EmptyBufferIffLeadingEmpty(chunks, i);
      PayloadStep(chunks, i);
      buffer := buffer + data;
      if |buffer| == |data| && !ft.ValidateMagicNumber(buffer) {
        FirstStopAtLeast(chunks, ft.maxSize, i + 1);
        assert LeadingEmpty(chunks, i);
        return Failure(InvalidFormat(ft.name));
      }
      SignatureRejectedStep(ft, chunks, i);
      i := i + 1;
    }
    assert chunks[..i] == chunks;
    FirstStopIs(chunks, ft.maxSize, i);
    return Success(buffer);
  }

  /** A signature failure names the type whose signatures were tested. */
  lemma InvalidFormatNamesType(ft: FileType, chunks: seq<Chunk>)
    ensures StreamVerdict(ft, chunks).Failure? && StreamVerdict(ft, chunks).error.InvalidFormat? ==>
      StreamVerdict(ft, chunks).error.typeName == ft.name
  {
  }

  /** The buffer is still empty exactly when every chunk read so far was empty. */
  lemma {:induction false} EmptyBufferIffLeadingEmpty(chunks: seq<Chunk>, i: nat)
    requires i <= |chunks| && AllOk(chunks[..i])
    ensures Payload(chunks[..i]) == [] <==> LeadingEmpty(chunks, i)
  {
    if i > 0 {
      assert chunks[..i][i - 1] == chunks[i - 1];
      PayloadStep(chunks, i - 1);
      EmptyBufferIffLeadingEmpty(chunks, i - 1);
    }
  }

  lemma SignatureRejectedStep(ft: FileType, chunks: seq<Chunk>, i: nat)
    requires i < |chunks|
    ensures SignatureRejected(ft, chunks, i + 1) <==>
      SignatureRejected(ft, chunks, i) || (LeadingEmpty(chunks, i) && chunks[i].Success? && !ft.ValidateMagicNumber(chunks[i].value))
  {
  }
}

/** Properties of the registry and of the validator's specification. */
module FileUtilsProperties {
  import opened Wrappers
  import opened Text
  import opened Http
  import opened Multipart
  import opened FileUtils

  /** The extension is exactly the dot-free text after the last dot. */
  lemma {:induction false} ExtensionAfterLastDot(prefix: string, ext: string)
    requires '.' !in ext
    ensures ExtensionOf(prefix + "." + ext) == ext
    decreases |ext|
  {
    var s := prefix + "." + ext;
    if ext != [] {
      assert s[..|s| - 1] == prefix + "." + ext[..|ext| - 1];
      ExtensionAfterLastDot(prefix, ext[..|ext| - 1]);
      assert ext == ext[..|ext| - 1] + [ext[|ext| - 1]];
    }
  }

  /** A name without a dot is its own extension. */
  lemma {:induction false} ExtensionOfDotless(name: string)
    requires '.' !in name
    ensures ExtensionOf(name) == name
    decreases |name|
  {
    if name != [] {
      ExtensionOfDotless(name[..|name| - 1]);
      assert name == name[..|name| - 1] + [name[|name| - 1]];
    }
  }

  /** `IMG.PNG` passes the PNG extension check: the comparison ignores case. */
  lemma UpperCaseExtensionAccepted()
    ensures PngType.ValidateExtension("IMG.PNG")
  {
    assert "IMG.PNG" == "IMG" + "." + "PNG";
    ExtensionAfterLastDot("IMG", "PNG");
    assert EqIgnoreAsciiCase(PngType.extensions[0], "PNG");
  }

  /** `img.png.bak` fails the PNG extension check: only the last part counts. */
  lemma InnerExtensionIgnored()
    ensures !PngType.ValidateExtension("img.png.bak")
  {
    assert "img.png.bak" == "img.png" + "." + "bak";
    ExtensionAfterLastDot("img.png", "bak");
    assert LowerAsciiChar('p') != LowerAsciiChar('b');
  }

  /** `x.tar.gz` is judged as `gz` by every type: there is no compound extension. */
  lemma CompoundExtensionIsLastPart(ft: FileType)
    ensures ft.ValidateExtension("x.tar.gz") <==> ft.ValidateExtension("gz")
  {
    assert "x.tar.gz" == "x.tar" + "." + "gz";
    ExtensionAfterLastDot("x.tar", "gz");
    ExtensionOfDotless("gz");
  }

  /** The content-type check compares lower-cased strings. */
  lemma ContentTypeIsCaseInsensitive(ft: FileType, contentType: string)
    ensures ft.ValidateContentType(contentType) <==>
      exists i :: 0 <= i < |ft.contentTypes| && LowerAscii(ft.contentTypes[i]) == LowerAscii(contentType)
  {
    forall i | 0 <= i < |ft.contentTypes| {
      EqIgnoreAsciiCaseIff(ft.contentTypes[i], contentType);
    }
  }

  /** The ZIP type accepts `application/zip` in any ASCII case and rejects `image/png`. */
  lemma ContentTypeExamples()
    ensures ZipType.ValidateContentType("application/zip")
    ensures ZipType.ValidateContentType("Application/ZIP")
    ensures !ZipType.ValidateContentType("image/png")
  {
    assert EqIgnoreAsciiCase(ZipType.contentTypes[0], "application/zip");
    assert EqIgnoreAsciiCase(ZipType.contentTypes[0], "Application/ZIP");
    assert !EqIgnoreAsciiCase(ZipType.contentTypes[0], "image/png");
  }

  /** If empty data passes the signature check, all data does. */
  lemma MagicEmptyDataAcceptsAll(ft: FileType, data: Bytes)
    ensures ft.ValidateMagicNumber([]) ==> ft.ValidateMagicNumber(data)
  {
    if ft.ValidateMagicNumber([]) && ft.magicNumbers != [] {
      var i :| 0 <= i < |ft.magicNumbers| && |ft.magicNumbers[i]| == 0;
      assert data[..|ft.magicNumbers[i]|] == ft.magicNumbers[i];
    }
  }

  /** Data shorter than every configured signature fails the check. */
  lemma MagicShortDataRejected(ft: FileType, data: Bytes)
    requires ft.magicNumbers != []
    requires forall i :: 0 <= i < |ft.magicNumbers| ==> |data| < |ft.magicNumbers[i]|
    ensures !ft.ValidateMagicNumber(data)
  {
  }

  /** A signature match survives appending more bytes. */
  lemma MagicSurvivesAppend(ft: FileType, data: Bytes, more: Bytes)
    requires ft.ValidateMagicNumber(data)
    ensures ft.ValidateMagicNumber(data + more)
  {
    if ft.magicNumbers != [] {
      var i :| 0 <= i < |ft.magicNumbers| && |data| >= |ft.magicNumbers[i]| && data[..|ft.magicNumbers[i]|] == ft.magicNumbers[i];
      assert (data + more)[..|ft.magicNumbers[i]|] == data[..|ft.magicNumbers[i]|];
    }
  }

  /**
   * The signature check, although it runs on every chunk read while the buffer is empty,
   * can only fail on the first chunk: it fails exactly when the first chunk was read
   * within the limit and carries no allowed signature.
   */
  lemma SignatureRejectedIff(ft: FileType, chunks: seq<Chunk>, k: nat)
    requires k <= |chunks| && AllOk(chunks[..k])
    ensures SignatureRejected(ft, chunks, k) <==> k > 0 && !ft.ValidateMagicNumber(chunks[0].value)
  {
    if k > 0 {
      assert chunks[..k][0] == chunks[0];
      assert LeadingEmpty(chunks, 0);
    }
    if SignatureRejected(ft, chunks, k) {
      var j :| 0 <= j < k && j < |chunks| && LeadingEmpty(chunks, j) && chunks[j].Success?
               && !ft.ValidateMagicNumber(chunks[j].value);
      MagicEmptyDataAcceptsAll(ft, chunks[j].value);
    }
  }

  /**
   * The stream is accepted exactly when every chunk is readable, the bytes fit the limit
   * and the first chunk carries a signature; the result is then all of the bytes, in order.
   */
  lemma StreamSucceedsIff(ft: FileType, chunks: seq<Chunk>)
    ensures StreamVerdict(ft, chunks).Success? <==>
      && AllOk(chunks)
      && |Payload(chunks)| <= ft.maxSize
      && (|chunks| > 0 ==> ft.ValidateMagicNumber(chunks[0].value))
    ensures StreamVerdict(ft, chunks).Success? ==>
      StreamVerdict(ft, chunks).value == Payload(chunks) && |StreamVerdict(ft, chunks).value| <= ft.maxSize
  {
    var k := FirstStop(chunks, ft.maxSize);
    FirstStopFullIff(chunks, ft.maxSize);
    SignatureRejectedIff(ft, chunks, k);
    if k > 0 {
      assert chunks[..k][0] == chunks[0];
    }
  }

  /**
   * Readable chunks whose bytes exceed the limit are refused whatever follows them: with
   * 413, or with 415 when the first chunk already failed the signature check.
   */
  lemma OversizeStopsStream(ft: FileType, pre: seq<Chunk>, rest: seq<Chunk>)
    requires AllOk(pre) && |Payload(pre)| > ft.maxSize
    ensures StreamVerdict(ft, pre + rest) == StreamVerdict(ft, pre)
    ensures StreamVerdict(ft, pre) ==
      if |pre[0].value| <= ft.maxSize && !ft.ValidateMagicNumber(pre[0].value)
      then Failure(InvalidFormat(ft.name))
      else Failure(TooLarge(ft.maxSize))
  {
    OversizeStopsInside(pre, ft.maxSize);
    FirstStopPrefixClosed(pre, rest, ft.maxSize);
    var k := FirstStop(pre, ft.maxSize);
    assert (pre + rest)[k] == pre[k];
    assert (pre + rest)[..k] == pre[..k];
    SignatureRejectedIff(ft, pre, k);
    SignatureRejectedIff(ft, pre + rest, k);
    assert |pre| > 0;
    assert (pre + rest)[0] == pre[0];
    if k == 0 {
      assert |pre[0].value| > ft.maxSize by { assert pre[..0] == []; }
    } else {
      assert pre[..k][0] == pre[0];
      PayloadGrows(pre, 1, k);
      assert pre[..1] == [pre[0]];
      assert Payload(pre[..1]) == pre[0].value by { assert pre[..1][..0] == []; }
    }
  }

  /** A read error after an accepted prefix gives 500 with the error's text. */
  lemma ReadErrorStopsStream(ft: FileType, pre: seq<Chunk>, e: string, rest: seq<Chunk>)
    requires StreamVerdict(ft, pre).Success?
    ensures StreamVerdict(ft, pre + [Failure(e)] + rest) == Failure(ChunkReadFailed(e))
    ensures ChunkReadFailed(e).Code() == StatusInternalServerError
  {
    StreamSucceedsIff(ft, pre);
    var s := pre + [Failure(e)] + rest;
    ReadErrorStops(pre, e, rest, ft.maxSize);
    assert s[..|pre|] == pre;
    SignatureRejectedIff(ft, s, |pre|);
    if |pre| > 0 {
      assert s[0] == pre[0];
    }
  }

  /**
   * A first chunk shorter than every signature is refused with 415 even if the bytes that
   * follow would complete a signature: only the bytes buffered so far are tested.
   */
  lemma ShortFirstChunkRejected(ft: FileType, chunks: seq<Chunk>)
    requires |chunks| > 0 && chunks[0].Success? && |chunks[0].value| <= ft.maxSize
    requires ft.magicNumbers != []
    requires forall i :: 0 <= i < |ft.magicNumbers| ==> |chunks[0].value| < |ft.magicNumbers[i]|
    ensures StreamVerdict(ft, chunks) == Failure(InvalidFormat(ft.name))
  {
    assert chunks[..1] == [chunks[0]];
    assert Payload(chunks[..1]) == chunks[0].value by { assert chunks[..1][..0] == []; }
    FirstStopAtLeast(chunks, ft.maxSize, 1);
    var k := FirstStop(chunks, ft.maxSize);
    assert chunks[..k][0] == chunks[0];
    MagicShortDataRejected(ft, chunks[0].value);
    SignatureRejectedIff(ft, chunks, k);
  }

  /**
   * A well-formed ZIP body whose first chunk ends anywhere inside the signature is refused,
   * while the same bytes in one chunk are accepted.
   */
  lemma ZipSplitInsideSignatureRejected(rest: Bytes, split: nat)
    requires |rest| + 4 <= ZipType.maxSize
    requires 0 < split < 4
    ensures var body := [0x50, 0x4B, 0x03, 0x04] + rest;
      StreamVerdict(ZipType, [Success(body[..split]), Success(body[split..])]) == Failure(InvalidFormat("ZIP"))
    ensures StreamVerdict(ZipType, [Success([0x50, 0x4B, 0x03, 0x04] + rest)]) == Success([0x50, 0x4B, 0x03, 0x04] + rest)
  {
    var body: Bytes := [0x50, 0x4B, 0x03, 0x04] + rest;
    ShortFirstChunkRejected(ZipType, [Success(body[..split]), Success(body[split..])]);
    var one: seq<Chunk> := [Success(body)];
    assert one[..0] == [];
    assert Payload(one) == body;
    assert body[..4] == ZipType.magicNumbers[0];
    StreamSucceedsIff(ZipType, one);
  }

  /**
   * The checks run in the order type name (400), file name (400), extension (415),
   * content type (415); a missing content type is judged as the empty one.
   */
  lemma ValidationOrder(fileTypes: map<string, FileType>, name: string, field: Field)
    ensures name !in fileTypes ==> ValidateFileSpec(fileTypes, name, field) == Failure(UnsupportedFileType(name))
    ensures name in fileTypes && field.fileName.None? ==> ValidateFileSpec(fileTypes, name, field) == Failure(NoFilename)
    ensures name in fileTypes && field.fileName.Some? && !fileTypes[name].ValidateExtension(field.fileName.value) ==>
      ValidateFileSpec(fileTypes, name, field) == Failure(InvalidExtension(fileTypes[name].extensions))
    ensures name in fileTypes && field.fileName.Some? && fileTypes[name].ValidateExtension(field.fileName.value)
              && !fileTypes[name].ValidateContentType(field.contentType.GetOr("")) ==>
      ValidateFileSpec(fileTypes, name, field) == Failure(InvalidContentType(fileTypes[name].contentTypes))
    ensures UnsupportedFileType(name).Code() == NoFilename.Code() == StatusBadRequest
    ensures InvalidExtension([]).Code() == InvalidContentType([]).Code() == StatusUnsupportedMediaType
  {
    if name in fileTypes && field.fileName.Some? {
      var ft := fileTypes[name];
      var filename := field.fileName.value;
      if !ft.ValidateExtension(filename) || !ft.ValidateContentType(field.contentType.GetOr("")) {
        assert ValidateFileSpec(fileTypes, name, field) ==
          if !ft.ValidateExtension(filename) then Failure(InvalidExtension(ft.extensions))
          else Failure(InvalidContentType(ft.contentTypes));
      }
    }
  }

  /** A missing content type is judged exactly as the empty one. */
  lemma MissingContentTypeIsEmpty(fileTypes: map<string, FileType>, name: string, field: Field)
    ensures field.contentType.None? ==>
      ValidateFileSpec(fileTypes, name, field) == ValidateFileSpec(fileTypes, name, field.(contentType := Some("")))
  {
  }

  /** Until every header check passes, the chunks do not affect the outcome: the stream is not read. */
  lemma StreamReadOnlyAfterHeaders(fileTypes: map<string, FileType>, name: string, field: Field, other: seq<Chunk>)
    ensures name in fileTypes && field.fileName.Some? && fileTypes[name].ValidateExtension(field.fileName.value)
              && fileTypes[name].ValidateContentType(field.contentType.GetOr("")) ==>
      ValidateFileSpec(fileTypes, name, field) == StreamVerdict(fileTypes[name], field.chunks)
    ensures !(name in fileTypes && field.fileName.Some? && fileTypes[name].ValidateExtension(field.fileName.value)
              && fileTypes[name].ValidateContentType(field.contentType.GetOr(""))) ==>
      ValidateFileSpec(fileTypes, name, field) == ValidateFileSpec(fileTypes, name, field.(chunks := other))
  {
  }

  /** Lower-cased, the first letters of the built-in extensions differ. */
  lemma FirstLettersDiffer(ext: string)
    ensures EqIgnoreAsciiCase("zip", ext) ==> !EqIgnoreAsciiCase("png", ext) && !EqIgnoreAsciiCase("jpg", ext) && !EqIgnoreAsciiCase("jpeg", ext)
    ensures EqIgnoreAsciiCase("png", ext) ==> !EqIgnoreAsciiCase("jpg", ext) && !EqIgnoreAsciiCase("jpeg", ext)
  {
    if |ext| > 0 {
      assert EqIgnoreAsciiCase("zip", ext) ==> LowerAsciiChar(ext[0]) == LowerAsciiChar('z');
      assert EqIgnoreAsciiCase("png", ext) ==> LowerAsciiChar(ext[0]) == LowerAsciiChar('p');
      assert EqIgnoreAsciiCase("jpg", ext) ==> LowerAsciiChar(ext[0]) == LowerAsciiChar('j');
      assert EqIgnoreAsciiCase("jpeg", ext) ==> LowerAsciiChar(ext[0]) == LowerAsciiChar('j');
    }
  }

  lemma ZipAccepts(ext: string)
    ensures ZipType.AllowsExtension(ext) <==> EqIgnoreAsciiCase("zip", ext)
  {
    assert ZipType.extensions[0] == "zip";
  }

  lemma PngAccepts(ext: string)
    ensures PngType.AllowsExtension(ext) <==> EqIgnoreAsciiCase("png", ext)
  {
    assert PngType.extensions[0] == "png";
  }

  lemma JpegAccepts(ext: string)
    ensures JpegType.AllowsExtension(ext) <==> EqIgnoreAsciiCase("jpg", ext) || EqIgnoreAsciiCase("jpeg", ext)
  {
    assert JpegType.extensions[0] == "jpg";
    assert JpegType.extensions[1] == "jpeg";
  }

  /**
   * No file name is accepted by two of the built-in types, so a lookup by extension in the
   * default table has at most one answer, whatever the table's iteration order.
   */
  lemma DefaultLookupIsUnique(filename: string)
    ensures ZipType.ValidateExtension(filename) ==> !PngType.ValidateExtension(filename) && !JpegType.ValidateExtension(filename)
    ensures PngType.ValidateExtension(filename) ==> !JpegType.ValidateExtension(filename)
  {
    var ext := ExtensionOf(filename);
    FirstLettersDiffer(ext);
    ZipAccepts(ext);
    PngAccepts(ext);
    JpegAccepts(ext);
  }
}
