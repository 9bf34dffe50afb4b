/**
 * `S3Uploader` and `GCSUploader`: the single-shot uploads of
 * file_uploader.py and the large-file uploads of new_methods.py, each
 * proved against the calls it makes on the abstract client.
 */
module Uploaders {
  import opened Paths
  import opened Credentials
  import opened Chunking
  import opened Sdk

  /**
   * An S3 uploader. `multipart_threshold` and `multipart_chunksize`, which
   * the large-file code reads, are set in no file of the repository; they are
   * fields here, and a usable uploader has a positive chunk size.
   */
  datatype S3Uploader = S3Uploader(bucketName: string, credentials: Credentials,
                                   multipartThreshold: nat, multipartChunksize: nat)
  {
    predicate Valid() { multipartChunksize > 0 }
  }

  /** A GCS uploader; `chunk_size` is likewise a field, handed to the resumable upload as it is. */
  datatype GcsUploader = GcsUploader(bucketName: string, chunkSize: nat)

  /** `S3Uploader.upload_file`: one put under the basename; any failure is swallowed. */
  method S3UploadFile(s3: S3Uploader, client: Client, path: string)
    modifies client
    ensures client.trace == old(client.trace) + [Put(S3, s3.bucketName, Basename(path), path)]
  {
    var key := Basename(path);
    var _ := client.Send(Put(S3, s3.bucketName, key, path));
  }

  /**
   * `GCSUploader.upload_file`: one put under the basename. A NotFound is
   * re-raised (reported as `notFound`), any other failure is swallowed.
   */
  method GcsUploadFile(gcs: GcsUploader, client: Client, path: string) returns (notFound: bool)
    modifies client
    ensures client.trace == old(client.trace) + [Put(GCS, gcs.bucketName, Basename(path), path)]
    ensures notFound <==> client.oracle(|old(client.trace)|) == Raised(NotFound)
  {
    var fileName := Basename(path);
    var reply := client.Send(Put(GCS, gcs.bucketName, fileName, path));
    notFound := reply == Raised(NotFound);
  }

  /**
   * `GCSUploader.upload_large_file`: one resumable upload; the library
   * drives its chunks. NotFound and every other failure are caught.
   */
  method GcsUploadLargeFile(gcs: GcsUploader, client: Client, path: string)
    modifies client
    ensures client.trace == old(client.trace) + [ResumableUpload(gcs.bucketName, Basename(path), path, gcs.chunkSize)]
  {
    var fileName := Basename(path);
    var _ := client.Send(ResumableUpload(gcs.bucketName, fileName, path, gcs.chunkSize));
  }

  /** The number of replies, from `start` on, before the first that raised (`count` if none in range). */
  function FirstFailure(oracle: nat -> Reply, start: nat, count: nat): (r: nat)
    ensures r <= count
    ensures forall j :: start <= j < start + r ==> oracle(j).Done?
    ensures r < count ==> oracle(start + r).Raised?
    decreases count
  {
    if count == 0 || oracle(start).Raised? then 0
    else 1 + FirstFailure(oracle, start + 1, count - 1)
  }

  /** The `upload_part` calls for the first `count` chunks, numbered from 1. */
  function PartCalls(bucket: string, key: string, uploadId: string, chunks: seq<seq<byte>>, count: nat): seq<Call>
    requires count <= |chunks|
  {
    seq(count, i requires 0 <= i < count => UploadPart(bucket, key, uploadId, i + 1, chunks[i]))
  }

  /** The parts list after `count` successful part uploads whose replies start at `start`. */
  function PartList(oracle: nat -> Reply, start: nat, count: nat): seq<Part>
    requires forall j :: start <= j < start + count ==> oracle(j).Done?
  {
    seq(count, i requires 0 <= i < count => Part(oracle(start + i).token, i + 1))
  }

  /**
   * The calls `upload_large_file` makes when its first call is the n-th of
   * the run: create the upload; if that raised, nothing more. Otherwise one
   * part per chunk until a part raises; only when none raised, one
   * completion with every part.
   */
  function MultipartCalls(bucket: string, key: string, content: seq<byte>, size: nat,
                          oracle: nat -> Reply, n: nat): seq<Call>
    requires size > 0
  {
    var create := CreateMultipart(bucket, key);
    if oracle(n).Raised? then [create]
    else [create] + AfterCreate(bucket, key, oracle(n).token, Chunks(content, size), oracle, n + 1)
  }

  /** The calls after a successful create: the parts up to the first that raised, then the completion if none did. */
  function AfterCreate(bucket: string, key: string, uploadId: string, chunks: seq<seq<byte>>,
                       oracle: nat -> Reply, n: nat): seq<Call>
  {
    var sent := FirstFailure(oracle, n, |chunks|);
    if sent < |chunks| then PartCalls(bucket, key, uploadId, chunks, sent + 1)
    else
      PartCalls(bucket, key, uploadId, chunks, |chunks|)
      + [CompleteMultipart(bucket, key, uploadId, PartList(oracle, n, |chunks|))]
  }

  lemma PartCallsSnoc(bucket: string, key: string, uploadId: string, chunks: seq<seq<byte>>, k: nat)
    requires k < |chunks|
    ensures PartCalls(bucket, key, uploadId, chunks, k + 1)
      == PartCalls(bucket, key, uploadId, chunks, k) + [UploadPart(bucket, key, uploadId, k + 1, chunks[k])]
  {
  }

  lemma PartListSnoc(oracle: nat -> Reply, start: nat, k: nat)
    requires forall j :: start <= j < start + k + 1 ==> oracle(j).Done?
    ensures PartList(oracle, start, k + 1) == PartList(oracle, start, k) + [Part(oracle(start + k).token, k + 1)]
  {
  }

  /**
   * The read at `offset` returns the next chunk: if the chunks of what is
   * left are `chunks[k..]`, the read is `chunks[k]` and `chunks[k + 1..]`
   * are the chunks of what is left after it.
   */
  lemma ReadStep(content: seq<byte>, size: nat, chunks: seq<seq<byte>>, k: nat, offset: nat, end: nat)
    requires size > 0 && offset < |content| && k <= |chunks|
    requires Chunks(content[offset..], size) == chunks[k..]
    requires end == if offset + size < |content| then offset + size else |content|
    ensures offset < end <= |content| && k < |chunks|
    ensures chunks[k] == content[offset..end]
    ensures Chunks(content[end..], size) == chunks[k + 1..]
  {
    ChunksUnfold(content[offset..], size);
    assert content[offset..][..end - offset] == content[offset..end];
    assert content[offset..][end - offset..] == content[end..];
    assert chunks[k..] == [chunks[k]] + chunks[k + 1..];
  }

  /**
   * One turn of the loop of `upload_large_file`: read the chunk at
   * `offset` and upload it as the next part.
   */
  method SendNextPart(bucket: string, key: string, uploadId: string, content: seq<byte>, size: nat,
                      offset: nat, partNumber: nat, ghost chunks: seq<seq<byte>>, ghost before: seq<Call>, client: Client)
    returns (response: Reply, end: nat)
    requires size > 0 && offset < |content| && 1 <= partNumber <= |chunks| + 1
    requires Chunks(content[offset..], size) == chunks[partNumber - 1..]
    requires client.trace == before + PartCalls(bucket, key, uploadId, chunks, partNumber - 1)
    modifies client
    ensures offset < end <= |content| && partNumber <= |chunks|
    ensures Chunks(content[end..], size) == chunks[partNumber..]
    ensures response == client.oracle(|old(client.trace)|)
    ensures client.trace == before + PartCalls(bucket, key, uploadId, chunks, partNumber)
  {
    end := if offset + size < |content| then offset + size else |content|;
    var chunk := content[offset..end];
    ghost var k := partNumber - 1;
    ReadStep(content, size, chunks, k, offset, end);
    response := client.Send(UploadPart(bucket, key, uploadId, partNumber, chunk));
    PartCallsSnoc(bucket, key, uploadId, chunks, k);
    AppendAssoc(before, PartCalls(bucket, key, uploadId, chunks, k), [UploadPart(bucket, key, uploadId, partNumber, chunk)]);
  }

  /**
   * The loop of `upload_large_file`: read a chunk, upload it as the next
   * part, record its ETag; stop at end of file or at the first part that
   * raises. `allSent` tells whether the completion call follows.
   */
  method SendParts(bucket: string, key: string, uploadId: string, content: seq<byte>, size: nat, client: Client)
    returns (parts: seq<Part>, allSent: bool)
    requires size > 0
    modifies client
    ensures allSent == (FirstFailure(client.oracle, |old(client.trace)|, |Chunks(content, size)|) == |Chunks(content, size)|)
    ensures client.trace == old(client.trace) + PartCalls(bucket, key, uploadId, Chunks(content, size),
      if allSent then |Chunks(content, size)| else FirstFailure(client.oracle, |old(client.trace)|, |Chunks(content, size)|) + 1)
    ensures allSent ==> parts == PartList(client.oracle, |old(client.trace)|, |Chunks(content, size)|)
  {
    ghost var before, n, o := client.trace, |client.trace|, client.oracle;
    ghost var chunks := Chunks(content, size);
    parts := [];
    var partNumber: nat := 1;
    var offset := 0;
    while offset < |content|
      invariant 0 <= offset <= |content|
      invariant 1 <= partNumber <= |chunks| + 1
      invariant Chunks(content[offset..], size) == chunks[partNumber - 1..]
      invariant forall j :: n <= j < n + partNumber - 1 ==> o(j).Done?
      invariant parts == PartList(o, n, partNumber - 1)
      invariant client.trace == before + PartCalls(bucket, key, uploadId, chunks, partNumber - 1)
      decreases |content| - offset
    {
      var response, end := SendNextPart(bucket, key, uploadId, content, size, offset, partNumber, chunks, before, client);
      if response.Raised? {
        FirstFailureAt(o, n, |chunks|, partNumber - 1);
        return parts, false;
      }
      PartListSnoc(o, n, partNumber - 1);
      parts := parts + [Part(response.token, partNumber)];
      partNumber := partNumber + 1;
      offset := end;
    }
    assert Chunks(content[offset..], size) == [];
    FirstFailureAt(o, n, |chunks|, |chunks|);
    allSent := true;
  }

  /** Replies that returned up to `k` and raised at `k` (or `k` is the end) place the first failure at `k`. */
  lemma FirstFailureAt(oracle: nat -> Reply, start: nat, count: nat, k: nat)
    requires k <= count
    requires forall j :: start <= j < start + k ==> oracle(j).Done?
    requires k < count ==> oracle(start + k).Raised?
    ensures FirstFailure(oracle, start, count) == k
  {
  }

  /** `S3Uploader.upload_large_file`: create the upload, send the parts, complete it; every exception is caught. */
  method S3UploadLargeFile(s3: S3Uploader, client: Client, path: string, content: seq<byte>)
    requires s3.Valid()
    modifies client
    ensures client.trace == old(client.trace)
      + MultipartCalls(s3.bucketName, Basename(path), content, s3.multipartChunksize, client.oracle, |old(client.trace)|)
  {
    MultipartUpload(s3.bucketName, Basename(path), content, s3.multipartChunksize, client);
  }

  /** The create / upload parts / complete sequence for one object. */
  method MultipartUpload(bucket: string, key: string, content: seq<byte>, size: nat, client: Client)
    requires size > 0
    modifies client
    ensures client.trace == old(client.trace) + MultipartCalls(bucket, key, content, size, client.oracle, |old(client.trace)|)
  {
    ghost var before := client.trace;
    var response := client.Send(CreateMultipart(bucket, key));
    if response.Raised? {
      return;
    }
    SendPartsAndComplete(bucket, key, response.token, content, size, client);
    AppendAssoc(before, [CreateMultipart(bucket, key)],
                AfterCreate(bucket, key, response.token, Chunks(content, size), client.oracle, |before| + 1));
  }

  /** The parts, then `complete_multipart_upload` only when every part returned. */
  method SendPartsAndComplete(bucket: string, key: string, uploadId: string, content: seq<byte>, size: nat, client: Client)
    requires size > 0
    modifies client
    ensures client.trace == old(client.trace)
      + AfterCreate(bucket, key, uploadId, Chunks(content, size), client.oracle, |old(client.trace)|)
  {
    var parts, allSent := SendParts(bucket, key, uploadId, content, size, client);
    if allSent {
      var _ := client.Send(CompleteMultipart(bucket, key, uploadId, parts));
    }
  }

  /** The bytes of the `upload_part` calls among `calls`, in order. */
  function SentBytes(calls: seq<Call>): seq<byte>
    decreases |calls|
  {
    if calls == [] then []
    else (if calls[0].UploadPart? then calls[0].body else []) + SentBytes(calls[1..])
  }

  lemma {:induction false} SentBytesOfParts(bucket: string, key: string, uploadId: string, chunks: seq<seq<byte>>, k: nat)
    requires k <= |chunks|
    ensures SentBytes(PartCalls(bucket, key, uploadId, chunks, k)) == Flatten(chunks[..k])
    decreases k
  {
    if k > 0 {
      SentBytesOfParts(bucket, key, uploadId, chunks, k - 1);
      var calls := PartCalls(bucket, key, uploadId, chunks, k);
      PartCallsSnoc(bucket, key, uploadId, chunks, k - 1);
      SentBytesAppend(PartCalls(bucket, key, uploadId, chunks, k - 1), [calls[k - 1]]);
      assert SentBytes([calls[k - 1]]) == chunks[k - 1] + SentBytes([]);
      assert chunks[..k] == chunks[..k - 1] + [chunks[k - 1]];
      FlattenAppend(chunks[..k - 1], [chunks[k - 1]]);
      assert Flatten([chunks[k - 1]]) == chunks[k - 1] + Flatten([]);
    }
  }

  lemma {:induction false} SentBytesAppend(a: seq<Call>, b: seq<Call>)
    ensures SentBytes(a + b) == SentBytes(a) + SentBytes(b)
    decreases |a|
  {
    if a == [] {
      assert a + b == b;
    } else {
      assert (a + b)[1..] == a[1..] + b;
      SentBytesAppend(a[1..], b);
    }
  }

  /** Part `j` of the list is numbered `j + 1` and carries the ETag of the `j`-th part reply. */
  predicate PartsNumbered(parts: seq<Part>, oracle: nat -> Reply, start: nat)
  {
    forall j :: 0 <= j < |parts| ==> parts[j].partNumber == j + 1 && oracle(start + j) == Done(parts[j].etag)
  }

  /**
   * Every call of a large-file upload goes to the same bucket and key; the
   * first creates the upload; every later one is a part upload or the
   * completion and carries the UploadId that the creation returned.
   */
  lemma MultipartUsesOneUpload(bucket: string, key: string, content: seq<byte>, size: nat, oracle: nat -> Reply, n: nat)
    requires size > 0
    ensures var calls := MultipartCalls(bucket, key, content, size, oracle, n);
      && |calls| >= 1 && calls[0] == CreateMultipart(bucket, key)
      && (|calls| > 1 ==> oracle(n).Done?)
      && (forall i :: 0 <= i < |calls| ==> calls[i].bucket == bucket && calls[i].key == key)
      && (forall i :: 1 <= i < |calls| ==>
            (calls[i].UploadPart? || calls[i].CompleteMultipart?) && calls[i].uploadId == oracle(n).token)
  {
  }

  /** The i-th call after the creation, when it is a part upload, is the upload of chunk i, numbered i + 1. */
  lemma AfterCreatePart(bucket: string, key: string, uploadId: string, chunks: seq<seq<byte>>,
                        oracle: nat -> Reply, n: nat, i: nat)
    requires i < |AfterCreate(bucket, key, uploadId, chunks, oracle, n)|
    requires AfterCreate(bucket, key, uploadId, chunks, oracle, n)[i].UploadPart?
    ensures i < |chunks| && AfterCreate(bucket, key, uploadId, chunks, oracle, n)[i] == UploadPart(bucket, key, uploadId, i + 1, chunks[i])
  {
  }

  /** Part uploads are numbered 1, 2, ... in call order and carry the successive reads of the content. */
  lemma MultipartPartsInOrder(bucket: string, key: string, content: seq<byte>, size: nat, oracle: nat -> Reply, n: nat)
    requires size > 0
    ensures var calls := MultipartCalls(bucket, key, content, size, oracle, n);
      forall i :: 1 <= i < |calls| && calls[i].UploadPart? ==>
        calls[i].partNumber == i && calls[i].body == Chunks(content, size)[i - 1]
  {
    var calls := MultipartCalls(bucket, key, content, size, oracle, n);
    var chunks := Chunks(content, size);
    if oracle(n).Done? {
      var after := AfterCreate(bucket, key, oracle(n).token, chunks, oracle, n + 1);
      assert calls == [CreateMultipart(bucket, key)] + after;
      forall i | 1 <= i < |calls| && calls[i].UploadPart?
        ensures calls[i].partNumber == i && calls[i].body == chunks[i - 1]
      {
        assert calls[i] == after[i - 1];
        AfterCreatePart(bucket, key, oracle(n).token, chunks, oracle, n + 1, i - 1);
      }
    }
  }

  /**
   * The completion is made iff the creation and every one of the
   * ceil(|content| / size) part uploads returned, and never before the last call.
   */
  lemma MultipartCompletesIffAllPartsSucceed(bucket: string, key: string, content: seq<byte>, size: nat,
                                             oracle: nat -> Reply, n: nat)
    requires size > 0
    ensures var calls := MultipartCalls(bucket, key, content, size, oracle, n);
      && (calls[|calls| - 1].CompleteMultipart? <==>
           oracle(n).Done? && forall j :: n + 1 <= j < n + 1 + CeilDiv(|content|, size) ==> oracle(j).Done?)
      && (forall i :: 0 <= i < |calls| - 1 ==> !calls[i].CompleteMultipart?)
  {
    ChunksCount(content, size);
  }

  /**
   * A completed upload made one part call per chunk, ceil(|content| / size)
   * in all, and its parts list is 1..k in order with the returned ETags.
   */
  lemma MultipartCompletionLists(bucket: string, key: string, content: seq<byte>, size: nat,
                                 oracle: nat -> Reply, n: nat)
    requires size > 0
    ensures var calls := MultipartCalls(bucket, key, content, size, oracle, n);
      var k := CeilDiv(|content|, size);
      calls[|calls| - 1].CompleteMultipart? ==>
        && |calls| == k + 2
        && |calls[|calls| - 1].parts| == k
        && PartsNumbered(calls[|calls| - 1].parts, oracle, n + 1)
  {
    ChunksCount(content, size);
  }

  /** A completed upload sent the whole content in its parts. */
  lemma MultipartCompletionSendsAll(bucket: string, key: string, content: seq<byte>, size: nat,
                                    oracle: nat -> Reply, n: nat)
    requires size > 0
    ensures var calls := MultipartCalls(bucket, key, content, size, oracle, n);
      calls[|calls| - 1].CompleteMultipart? ==> SentBytes(calls) == content
  {
    var calls := MultipartCalls(bucket, key, content, size, oracle, n);
    var chunks := Chunks(content, size);
    if oracle(n).Done? && FirstFailure(oracle, n + 1, |chunks|) == |chunks| {
      var create := [CreateMultipart(bucket, key)];
      var parts := PartCalls(bucket, key, oracle(n).token, chunks, |chunks|);
      var complete := CompleteMultipart(bucket, key, oracle(n).token, PartList(oracle, n + 1, |chunks|));
      assert calls == create + parts + [complete];
      SentBytesAppend(create + parts, [complete]);
      SentBytesAppend(create, parts);
      SentBytesOfParts(bucket, key, oracle(n).token, chunks, |chunks|);
      assert chunks[..|chunks|] == chunks;
      FlattenChunks(content, size);
      assert SentBytes([complete]) == [] + SentBytes([]);
      assert SentBytes(create) == [] + SentBytes([]);
    }
  }

  /** After the creation: at least one call; the last one raised unless it completed, and every earlier one returned. */
  lemma AfterCreateStops(bucket: string, key: string, uploadId: string, chunks: seq<seq<byte>>,
                         oracle: nat -> Reply, n: nat)
    ensures var after := AfterCreate(bucket, key, uploadId, chunks, oracle, n);
      && |after| >= 1
      && (!after[|after| - 1].CompleteMultipart? ==> oracle(n + |after| - 1).Raised?)
      && (forall j :: n <= j < n + |after| - 1 ==> oracle(j).Done?)
  {
    var s := FirstFailure(oracle, n, |chunks|);
    var after := AfterCreate(bucket, key, uploadId, chunks, oracle, n);
    if s < |chunks| {
      assert |after| == s + 1;
      assert after[|after| - 1] == UploadPart(bucket, key, uploadId, s + 1, chunks[s]);
    } else {
      assert |after| == |chunks| + 1;
    }
  }

  /** A large-file upload that does not complete ends with the call that raised; nothing follows it. */
  lemma MultipartStopsAtFirstFailure(bucket: string, key: string, content: seq<byte>, size: nat,
                                     oracle: nat -> Reply, n: nat)
    requires size > 0
    ensures var calls := MultipartCalls(bucket, key, content, size, oracle, n);
      && (!calls[|calls| - 1].CompleteMultipart? ==> oracle(n + |calls| - 1).Raised?)
      && (forall j :: n <= j < n + |calls| - 1 ==> oracle(j).Done?)
  {
    var calls := MultipartCalls(bucket, key, content, size, oracle, n);
    if oracle(n).Done? {
      var after := AfterCreate(bucket, key, oracle(n).token, Chunks(content, size), oracle, n + 1);
      assert calls == [CreateMultipart(bucket, key)] + after;
      AfterCreateStops(bucket, key, oracle(n).token, Chunks(content, size), oracle, n + 1);
      assert calls[|calls| - 1] == after[|after| - 1];
    }
  }

  /** After the creation, the bytes sent are those of the first k chunks, for some k. */
  lemma AfterCreateSendsChunks(bucket: string, key: string, uploadId: string, chunks: seq<seq<byte>>,
                               oracle: nat -> Reply, n: nat) returns (k: nat)
    ensures k <= |chunks| && SentBytes(AfterCreate(bucket, key, uploadId, chunks, oracle, n)) == Flatten(chunks[..k])
  {
    var s := FirstFailure(oracle, n, |chunks|);
    k := if s < |chunks| then s + 1 else |chunks|;
    var parts := PartCalls(bucket, key, uploadId, chunks, k);
    SentBytesOfParts(bucket, key, uploadId, chunks, k);
    if s == |chunks| {
      var complete := CompleteMultipart(bucket, key, uploadId, PartList(oracle, n, |chunks|));
      SentBytesAppend(parts, [complete]);
      assert SentBytes([complete]) == [] + SentBytes([]);
    }
  }

  /** What has been sent is always a prefix of the content. */
  lemma MultipartSendsPrefix(bucket: string, key: string, content: seq<byte>, size: nat, oracle: nat -> Reply, n: nat)
    requires size > 0
    ensures var sent := SentBytes(MultipartCalls(bucket, key, content, size, oracle, n));
      |sent| <= |content| && sent == content[..|sent|]
  {
    var calls := MultipartCalls(bucket, key, content, size, oracle, n);
    var chunks := Chunks(content, size);
    var create := [CreateMultipart(bucket, key)];
    assert SentBytes(create) == [] + SentBytes([]);
    if oracle(n).Done? {
      var after := AfterCreate(bucket, key, oracle(n).token, chunks, oracle, n + 1);
      assert calls == create + after;
      SentBytesAppend(create, after);
      var k := AfterCreateSendsChunks(bucket, key, oracle(n).token, chunks, oracle, n + 1);
      FlattenChunks(content, size);
      assert chunks == chunks[..k] + chunks[k..];
      FlattenAppend(chunks[..k], chunks[k..]);
      var sent := Flatten(chunks[..k]);
      assert content == sent + Flatten(chunks[k..]);
      assert content[..|sent|] == sent;
    }
  }

  /** An empty file, once the upload is created, is completed at once with an empty parts list. */
  lemma MultipartOfEmptyContent(bucket: string, key: string, size: nat, oracle: nat -> Reply, n: nat)
    requires size > 0 && oracle(n).Done?
    ensures MultipartCalls(bucket, key, [], size, oracle, n)
      == [CreateMultipart(bucket, key), CompleteMultipart(bucket, key, oracle(n).token, [])]
  {
    var empty: seq<byte> := [];
    assert Chunks(empty, size) == [];
    assert PartCalls(bucket, key, oracle(n).token, [], 0) == [];
    assert PartList(oracle, n + 1, 0) == [];
  }

  /** 2,000,000 bytes in chunks of 500,000 with every call returning: four parts, then one completion. */
  lemma MultipartFourParts(bucket: string, key: string, content: seq<byte>, oracle: nat -> Reply, n: nat)
    requires |content| == 2000000
    requires forall j :: n <= j < n + 5 ==> oracle(j).Done?
    ensures var calls := MultipartCalls(bucket, key, content, 500000, oracle, n);
      |calls| == 6 && calls[5].CompleteMultipart? && |calls[5].parts| == 4
  {
    assert CeilDiv(|content|, 500000) == 4;
    MultipartCompletesIffAllPartsSucceed(bucket, key, content, 500000, oracle, n);
    MultipartCompletionLists(bucket, key, content, 500000, oracle, n);
  }
}
