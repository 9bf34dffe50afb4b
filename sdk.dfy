/**
 * The SDK calls of the uploaders (boto3's S3 client and the Google Cloud
 * Storage client) as one abstract client. It records every call in a
 * trace; what a call returns or raises is not known to the uploader, so
 * the reply to the n-th call of a run is `oracle(n)`, an arbitrary value.
 */
module Sdk {

  type byte = bv8

  datatype Service = S3 | GCS

  /** The exceptions the uploaders tell apart: `google.api_core.exceptions.NotFound` and any other. */
  datatype Failure = NotFound | OtherError

  /** A call returned (with an UploadId or ETag where it has one) or raised. */
  datatype Reply = Done(token: string) | Raised(failure: Failure)

  /** One `{'ETag': ..., 'PartNumber': ...}` entry of the parts list. */
  datatype Part = Part(etag: string, partNumber: nat)

  datatype Call =
    /** A single-shot upload: `s3.upload_file(path, bucket, key)` or `bucket.blob(key).upload_from_filename(path)`. */
    | Put(service: Service, bucket: string, key: string, path: string)
    /** `s3.create_multipart_upload(Bucket, Key)`. */
    | CreateMultipart(bucket: string, key: string)
    /** `s3.upload_part(Body, Bucket, Key, PartNumber, UploadId)`. */
    | UploadPart(bucket: string, key: string, uploadId: string, partNumber: nat, body: seq<byte>)
    /** `s3.complete_multipart_upload(Bucket, Key, UploadId, MultipartUpload={'Parts': parts})`. */
    | CompleteMultipart(bucket: string, key: string, uploadId: string, parts: seq<Part>)
    /** `blob.resumable_upload(file, chunk_size)` together with the library's chunk loop. */
    | ResumableUpload(bucket: string, key: string, path: string, chunkSize: nat)

  /** The backend a call goes to. */
  function ServiceOf(c: Call): Service
  {
    match c
    case Put(service, _, _, _) => service
    case ResumableUpload(_, _, _, _) => GCS
    case _ => S3
  }

  /** The call that starts the upload of one file to `service`. */
  predicate Starts(c: Call, service: Service)
  {
    match c
    case Put(s, _, _, _) => s == service
    case CreateMultipart(_, _) => service == S3
    case ResumableUpload(_, _, _, _) => service == GCS
    case _ => false
  }

  class Client {
    /** Every call made so far, oldest first. */
    var trace: seq<Call>
    /** The reply to the n-th call. */
    const oracle: nat -> Reply

    constructor (oracle: nat -> Reply)
      ensures trace == [] && this.oracle == oracle
    {
      this.oracle := oracle;
      trace := [];
    }

    method Send(c: Call) returns (reply: Reply)
      modifies this
      ensures trace == old(trace) + [c]
      ensures reply == oracle(|old(trace)|)
    {
      reply := oracle(|trace|);
      trace := trace + [c];
    }
  }

  /** Regrouping calls appended to a trace; a proof step the verifier finds costly in large contexts. */
  lemma AppendAssoc(a: seq<Call>, b: seq<Call>, c: seq<Call>)
    ensures (a + b) + c == a + (b + c)
  {
  }
}
