/**
 * Attachment handling of the publication form
 * (src/frontend/scripts/attachment-handler.js): batch upload with one result
 * per file, chunk planning, replacing and deleting attachments, and the
 * drag-and-drop filter. Network calls are oracles: `server(i)` is the reply
 * to the upload request of the i-th file of a batch, `deleteOk(id)` whether
 * deleting attachment `id` succeeds.
 */
module Attachments {
  import opened Oracle
  import opened Pdf

  // ---------------------------------------------------------------------------
  // Batch upload
  // ---------------------------------------------------------------------------

  datatype UploadError = Invalid(reason: PdfError) | BadHeader | Unreadable | ServerError

  /** One record of uploadAttachments' result list. */
  datatype UploadResult =
    | Uploaded(file: string, attachmentId: nat, size: nat)
    | Failed(file: string, error: UploadError)

  /** A file is sent to the server only after both checks accept it. */
  predicate ReachesServer(f: PdfFile) {
    ValidatePdf(f).Accepted? && ValidatePdfHeader(f) == HeaderOk
  }

  /**
   * The record for one file: the metadata check, then the header check, then
   * the upload, each failure ending the file's processing with its reason.
   */
  function UploadOutcome(f: PdfFile, reply: Reply<nat>): (r: UploadResult)
    ensures r.file == f.name
    ensures r.Uploaded? <==> ReachesServer(f) && reply.Ok?
    ensures r.Uploaded? ==> r.attachmentId == reply.value && r.size == f.size
    ensures ValidatePdf(f).Rejected? ==> r == Failed(f.name, Invalid(ValidatePdf(f).error))
    ensures ValidatePdf(f).Accepted? && ValidatePdfHeader(f) != HeaderOk ==> r.Failed? && !r.error.Invalid?
  {
    match ValidatePdf(f)
    case Rejected(e) => Failed(f.name, Invalid(e))
    case Accepted =>
      match ValidatePdfHeader(f)
      case HeaderInvalid => Failed(f.name, BadHeader)
      case HeaderUnreadable => Failed(f.name, Unreadable)
      case HeaderOk =>
        match reply
        case Ok(id) => Uploaded(f.name, id, f.size)
        case Err => Failed(f.name, ServerError)
  }

  predicate StrictlyIncreasing(xs: seq<nat>) {
    forall i, j :: 0 <= i < j < |xs| ==> xs[i] < xs[j]
  }

  /**
   * uploadAttachments: exactly one record per file, in file order, whatever
   * fails; `requests` lists, in order, the files for which an upload request
   * was sent, which are exactly the files both checks accept.
   */
  method UploadAttachments(files: seq<PdfFile>, server: nat -> Reply<nat>)
    returns (results: seq<UploadResult>, requests: seq<nat>)
    ensures |results| == |files|
    ensures forall i :: 0 <= i < |files| ==> results[i] == UploadOutcome(files[i], server(i))
    ensures StrictlyIncreasing(requests)
    ensures forall i: nat :: i in requests <==> i < |files| && ReachesServer(files[i])
  {
    results := [];
    requests := [];
    for i := 0 to |files|
      invariant |results| == i
      invariant forall k :: 0 <= k < i ==> results[k] == UploadOutcome(files[k], server(k))
      invariant StrictlyIncreasing(requests)
      invariant forall k :: 0 <= k < |requests| ==> requests[k] < i
      invariant forall k: nat :: k in requests <==> k < i && ReachesServer(files[k])
    {
      var file := files[i];
      var validation := ValidatePdf(file);
      if validation.Rejected? {
        results := results + [Failed(file.name, Invalid(validation.error))];
        continue;
      }
      var header := ValidatePdfHeader(file);
      if header != HeaderOk {
        var error := if header == HeaderInvalid then BadHeader else Unreadable;
        results := results + [Failed(file.name, error)];
        continue;
      }
      requests := requests + [i];
      var reply := server(i);
      if reply.Ok? {
        results := results + [Uploaded(file.name, reply.value, file.size)];
      } else {
        results := results + [Failed(file.name, ServerError)];
      }
    }
  }

  // ---------------------------------------------------------------------------
  // Chunked upload
  // ---------------------------------------------------------------------------

  const UploadChunkSize: nat := 1048576

  /** The byte range [start, end) of one chunk. */
  datatype Slice = Slice(start: nat, end: nat)

  /** Math.ceil(size / UploadChunkSize). */
  function TotalChunks(size: nat): nat {
    (size + UploadChunkSize - 1) / UploadChunkSize
  }

  /**
   * The slices start at 0, follow each other without gap or overlap, are
   * non-empty and at most one chunk long, and end at `size`.
   */
  predicate Partition(slices: seq<Slice>, size: nat) {
    && (slices == [] <==> size == 0)
    && (slices != [] ==> slices[0].start == 0 && slices[|slices| - 1].end == size)
    && (forall k :: 0 <= k < |slices| - 1 ==> slices[k].end == slices[k + 1].start)
    && (forall k :: 0 <= k < |slices| ==> slices[k].start < slices[k].end <= slices[k].start + UploadChunkSize)
  }

  /**
   * uploadAttachmentWithChunking: sends ceil(size / chunk) slices covering the
   * file; `uploadedChunks` ends equal to the number of chunks.
   */
  method UploadAttachmentWithChunking(size: nat) returns (slices: seq<Slice>, uploadedChunks: nat)
    ensures uploadedChunks == |slices| == TotalChunks(size)
    ensures Partition(slices, size)
    ensures forall k :: 0 <= k < |slices| ==>
      && slices[k].start == k * UploadChunkSize
      && slices[k].end == if k * UploadChunkSize + UploadChunkSize < size then k * UploadChunkSize + UploadChunkSize else size
  {
    var totalChunks := TotalChunks(size);
    slices := [];
    uploadedChunks := 0;
    for i := 0 to totalChunks
      invariant uploadedChunks == |slices| == i
      invariant forall k :: 0 <= k < i ==> slices[k].start == k * UploadChunkSize
      invariant forall k :: 0 <= k < i ==> slices[k].end == if k * UploadChunkSize + UploadChunkSize < size then k * UploadChunkSize + UploadChunkSize else size
    {
      var start := i * UploadChunkSize;
      var end := if start + UploadChunkSize < size then start + UploadChunkSize else size;
      slices := slices + [Slice(start, end)];
      uploadedChunks := uploadedChunks + 1;
    }
  }

  /** Every byte of the file lies in exactly one slice of a partition. */
  lemma {:induction false} PartitionCovers(slices: seq<Slice>, size: nat, b: nat)
    requires Partition(slices, size)
    requires b < size
    ensures exists k :: 0 <= k < |slices| && slices[k].start <= b < slices[k].end
    ensures forall k1, k2 ::
      (0 <= k1 < |slices| && 0 <= k2 < |slices|
       && slices[k1].start <= b < slices[k1].end && slices[k2].start <= b < slices[k2].end) ==> k1 == k2
  {
    var n := |slices|;
    PartitionOrdered(slices, size);
    var k := 0;
    while k < n - 1 && slices[k].end <= b
      invariant 0 <= k < n
      invariant slices[k].start <= b
    {
      k := k + 1;
    }
    assert slices[k].start <= b < slices[k].end;
  }

  /** In a partition, a later slice starts where or after an earlier one ends. */
  lemma {:induction false} PartitionOrdered(slices: seq<Slice>, size: nat)
    requires Partition(slices, size)
    ensures forall k1, k2 :: 0 <= k1 < k2 < |slices| ==> slices[k1].end <= slices[k2].start
  {
    forall k1, k2 | 0 <= k1 < k2 < |slices| ensures slices[k1].end <= slices[k2].start {
      var j := k1 + 1;
      while j < k2
        invariant k1 < j <= k2
        invariant slices[k1].end <= slices[j].start
      {
        j := j + 1;
      }
    }
  }

  // ---------------------------------------------------------------------------
  // Replace and delete
  // ---------------------------------------------------------------------------

  const EnableVersioning: bool := true

  /** The steps replaceAttachment takes, in order. */
  datatype Request = ArchiveVersion(attachmentId: nat) | DeleteAttachment(attachmentId: nat) | AddAttachment(fileName: string)

  datatype ReplaceOutcome = Replaced(result: UploadResult) | Threw

  /**
   * replaceAttachment: archive (when versioning is on), delete the old
   * attachment, upload the new file and return its record. A failed delete
   * throws before anything is uploaded.
   */
  method ReplaceAttachment(oldId: nat, newFile: PdfFile, deleteOk: nat -> bool, server: nat -> Reply<nat>)
    returns (outcome: ReplaceOutcome, requests: seq<Request>)
    ensures requests ==
      (if EnableVersioning then [ArchiveVersion(oldId)] else [])
      + [DeleteAttachment(oldId)]
      + (if deleteOk(oldId) && ReachesServer(newFile) then [AddAttachment(newFile.name)] else [])
    ensures outcome == if deleteOk(oldId) then Replaced(UploadOutcome(newFile, server(0))) else Threw
  {
    requests := [];
    if EnableVersioning {
      requests := requests + [ArchiveVersion(oldId)];
    }
    requests := requests + [DeleteAttachment(oldId)];
    if !deleteOk(oldId) {
      return Threw, requests;
    }
    var results, sent := UploadAttachments([newFile], server);
    if sent != [] {
      assert sent[0] in sent;
      requests := requests + [AddAttachment(newFile.name)];
    } else {
      assert 0 !in sent;
    }
    outcome := Replaced(results[0]);
  }

  /**
   * deleteAllAttachments: fetches the list, then deletes in list order,
   * stopping at the first failed delete. `deletes` are the delete requests
   * sent: a prefix of the list whose members all succeeded except possibly
   * the last; the call succeeds exactly when every delete did.
   */
  method DeleteAllAttachments(fetched: Reply<seq<nat>>, deleteOk: nat -> bool)
    returns (ok: bool, deletes: seq<nat>)
    ensures fetched.Err? ==> !ok && deletes == []
    ensures fetched.Ok? ==> |deletes| <= |fetched.value| && deletes == fetched.value[..|deletes|]
    ensures forall k :: 0 <= k < |deletes| - 1 ==> deleteOk(deletes[k])
    ensures fetched.Ok? ==> (ok <==> forall id :: id in fetched.value ==> deleteOk(id))
    ensures ok ==> fetched.Ok? && deletes == fetched.value
    ensures !ok && fetched.Ok? ==> deletes != [] && !deleteOk(deletes[|deletes| - 1])
  {
    if fetched.Err? {
      return false, [];
    }
    var attachments := fetched.value;
    deletes := [];
    for i := 0 to |attachments|
      invariant deletes == attachments[..i]
      invariant forall k :: 0 <= k < i ==> deleteOk(attachments[k])
    {
      deletes := deletes + [attachments[i]];
      if !deleteOk(attachments[i]) {
        return false, deletes;
      }
    }
    assert attachments[..|attachments|] == attachments;
    ok := true;
  }

  // ---------------------------------------------------------------------------
  // Drag and drop
  // ---------------------------------------------------------------------------

  /** `a` is `b` with some elements left out, the rest in the same order. */
  predicate IsSubsequence<T(==)>(a: seq<T>, b: seq<T>)
    decreases |b|
  {
    a == [] || (b != [] && if a[0] == b[0] then IsSubsequence(a[1..], b[1..]) else IsSubsequence(a, b[1..]))
  }

  /**
   * The drop handler's `files.filter(validatePDF(file).valid)`: the files
   * handed to addFile are the accepted ones, in drop order, each as often as
   * it was dropped, and no other.
   */
  function DropFilter(files: seq<PdfFile>): (kept: seq<PdfFile>)
    ensures forall f :: f in kept ==> ValidatePdf(f).Accepted?
    ensures forall f :: f in files && ValidatePdf(f).Accepted? ==> f in kept
    ensures forall f :: multiset(kept)[f] == if ValidatePdf(f).Accepted? then multiset(files)[f] else 0
    ensures IsSubsequence(kept, files)
  {
    if files == [] then []
    else
      var rest := DropFilter(files[1..]);
      assert files == [files[0]] + files[1..];
      if ValidatePdf(files[0]).Accepted? then [files[0]] + rest else rest
  }

}
