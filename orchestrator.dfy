/**
 * `FileUploader`: construction of the backends from the parsed config, and
 * `upload_files`, which walks the directory listing and routes every
 * regular file, by extension, to each backend that accepts it. The walk
 * exists in two revisions: file_uploader.py always uses the single-shot
 * upload; new_methods.py picks the large-file upload above a size
 * threshold.
 */
module Orchestrator {
  import opened Wrappers
  import opened Paths
  import opened Credentials
  import opened Routing
  import opened Sdk
  import opened Uploaders

  /** One entry of the config's "cloud_services". */
  datatype ServiceConfig = ServiceConfig(bucketName: string, credentialsFile: string)

  /** The parsed JSON config: "cloud_services", and "file_types" when the config has that key. */
  datatype Config = Config(cloudServices: map<string, ServiceConfig>, fileTypes: Option<FileTypes>)

  /**
   * What the backend constructors read from disk: the credentials CSV files
   * that can be read, by path, already parsed, and the service-account files
   * from which a GCS client can be built.
   */
  datatype CredentialStore = CredentialStore(csvFiles: map<string, seq<Row>>, serviceAccounts: set<string>)

  /** The transfer attributes that no file of the repository sets; the multipart chunk size is positive. */
  datatype TransferSettings = TransferSettings(multipartThreshold: nat, multipartChunksize: nat, gcsChunkSize: nat)
  {
    predicate Valid() { multipartChunksize > 0 }
  }

  /** An initialised backend with the extensions routed to it (`s3_uploader` with `s3_uploader_file_types`). */
  datatype Active<U> = Active(uploader: U, fileTypes: seq<string>)

  /** The backends that exist; a backend missing from "cloud_services" is `None`. */
  datatype FileUploader = FileUploader(s3: Option<Active<S3Uploader>>, gcs: Option<Active<GcsUploader>>)
  {
    predicate Valid()
    {
      s3.Some? ==> s3.value.uploader.Valid()
    }
  }

  /** The exceptions that escape `FileUploader.__init__`. */
  datatype InitError =
    | S3CredentialsError(cause: CredentialError)
    | GcsCredentialsError(credentialsFile: string)
    | NoUploadTypes(routing: RoutingError)

  function CsvAt(store: CredentialStore, path: string): CsvFile
  {
    if path in store.csvFiles then Rows(store.csvFiles[path]) else Unreadable
  }

  /** Constructing the S3 uploader or its extension list fails. */
  predicate S3Fails(config: Config, uploadFileTypes: UploadFileTypes, store: CredentialStore)
  {
    "s3" in config.cloudServices &&
    (Resolve(CsvAt(store, config.cloudServices["s3"].credentialsFile)).Failure?
     || RoutingFails(uploadFileTypes, config.fileTypes, "s3"))
  }

  /** Constructing the GCS uploader or its extension list fails. */
  predicate GcsFails(config: Config, uploadFileTypes: UploadFileTypes, store: CredentialStore)
  {
    "gcs" in config.cloudServices &&
    (config.cloudServices["gcs"].credentialsFile !in store.serviceAccounts
     || RoutingFails(uploadFileTypes, config.fileTypes, "gcs"))
  }

  /** `FileUploader.__init__` after the config is parsed. */
  method Init(config: Config, uploadFileTypes: UploadFileTypes, store: CredentialStore, settings: TransferSettings)
    returns (r: Result<FileUploader, InitError>)
    requires settings.Valid()
    ensures r.Failure? <==> S3Fails(config, uploadFileTypes, store) || GcsFails(config, uploadFileTypes, store)
    ensures S3Fails(config, uploadFileTypes, store) ==>
      var creds := Resolve(CsvAt(store, config.cloudServices["s3"].credentialsFile));
      r == Failure(if creds.Failure? then S3CredentialsError(creds.error) else NoUploadTypes(RoutingErrorOf(uploadFileTypes, "s3")))
    ensures !S3Fails(config, uploadFileTypes, store) && GcsFails(config, uploadFileTypes, store) ==>
      var credentialsFile := config.cloudServices["gcs"].credentialsFile;
      r == Failure(if credentialsFile !in store.serviceAccounts then GcsCredentialsError(credentialsFile)
                   else NoUploadTypes(RoutingErrorOf(uploadFileTypes, "gcs")))
    ensures r.Success? ==> r.value.Valid()
    ensures r.Success? ==> (r.value.s3.Some? <==> "s3" in config.cloudServices)
    ensures r.Success? ==> (r.value.gcs.Some? <==> "gcs" in config.cloudServices)
    ensures r.Success? && r.value.s3.Some? ==>
      var svc := config.cloudServices["s3"];
      r.value.s3.value == Active(S3Uploader(svc.bucketName, Resolve(CsvAt(store, svc.credentialsFile)).value,
                                            settings.multipartThreshold, settings.multipartChunksize),
                                 Extensions(uploadFileTypes["s3"], config.fileTypes))
    ensures r.Success? && r.value.gcs.Some? ==>
      var svc := config.cloudServices["gcs"];
      r.value.gcs.value == Active(GcsUploader(svc.bucketName, settings.gcsChunkSize), Extensions(uploadFileTypes["gcs"], config.fileTypes))
  {
    var s3: Option<Active<S3Uploader>> := None;
    var gcs: Option<Active<GcsUploader>> := None;
    if "s3" in config.cloudServices {
      var svc := config.cloudServices["s3"];
      var creds := ReadCredentials(CsvAt(store, svc.credentialsFile));
      if creds.Failure? {
        return Failure(S3CredentialsError(creds.error));
      }
      var extensions := GetFileExt(uploadFileTypes, config.fileTypes, "s3");
      if extensions.Failure? {
        return Failure(NoUploadTypes(extensions.error));
      }
      s3 := Some(Active(S3Uploader(svc.bucketName, creds.value, settings.multipartThreshold, settings.multipartChunksize),
                        extensions.value));
    }
    if "gcs" in config.cloudServices {
      var svc := config.cloudServices["gcs"];
      if svc.credentialsFile !in store.serviceAccounts {
        return Failure(GcsCredentialsError(svc.credentialsFile));
      }
      var extensions := GetFileExt(uploadFileTypes, config.fileTypes, "gcs");
      if extensions.Failure? {
        return Failure(NoUploadTypes(extensions.error));
      }
      gcs := Some(Active(GcsUploader(svc.bucketName, settings.gcsChunkSize), extensions.value));
    }
    return Success(FileUploader(s3, gcs));
  }

  /**
   * One file name yielded by the walk, its joined path, whether `isfile`
   * holds for it, and the bytes it holds (`getsize` is their number).
   */
  datatype Entry = Entry(name: string, path: string, isFile: bool, content: seq<byte>)

  /** What `isdir` and `os.walk` give for the uploader's directory. */
  datatype Listing = Listing(rootExists: bool, entries: seq<Entry>)

  /** `upload_files` as file_uploader.py has it, or as new_methods.py replaces it. */
  datatype Revision = Original | Patched

  /** How `upload_files` ends: normally, on a missing directory (both return None), or by the NotFound it lets escape. */
  datatype WalkStatus = Finished | NoDirectory | StoppedByNotFound

  /** The calls made, and whether a NotFound escaped after the last of them. */
  datatype Run = Run(calls: seq<Call>, stopped: bool)

  function Then(calls: seq<Call>, r: Run): Run
  {
    Run(calls + r.calls, r.stopped)
  }

  /** The backend exists and its extension list holds `ext`. */
  predicate RoutesTo<U>(backend: Option<Active<U>>, ext: string)
  {
    backend.Some? && ext in backend.value.fileTypes
  }

  /** The S3 calls for one file. */
  function S3Calls(s3: S3Uploader, e: Entry, oracle: nat -> Reply, n: nat, rev: Revision): seq<Call>
    requires s3.Valid()
  {
    if rev.Patched? && |e.content| > s3.multipartThreshold
    then MultipartCalls(s3.bucketName, Basename(e.path), e.content, s3.multipartChunksize, oracle, n)
    else [Put(S3, s3.bucketName, Basename(e.path), e.path)]
  }

  /** The GCS call for one file; only the single-shot path lets a NotFound escape. */
  function GcsRun(gcs: GcsUploader, e: Entry, oracle: nat -> Reply, n: nat, rev: Revision): Run
  {
    if rev.Patched? && |e.content| > gcs.chunkSize
    then Run([ResumableUpload(gcs.bucketName, Basename(e.path), e.path, gcs.chunkSize)], false)
    else Run([Put(GCS, gcs.bucketName, Basename(e.path), e.path)], oracle(n) == Raised(NotFound))
  }

  /** The S3 calls for one file, or none when S3 does not take its extension. */
  function S3Part(u: FileUploader, e: Entry, oracle: nat -> Reply, n: nat, rev: Revision): seq<Call>
    requires u.Valid()
  {
    if RoutesTo(u.s3, Extension(e.name)) then S3Calls(u.s3.value.uploader, e, oracle, n, rev) else []
  }

  /** The GCS call for one file, or none when GCS does not take its extension. */
  function GcsPart(u: FileUploader, e: Entry, oracle: nat -> Reply, n: nat, rev: Revision): Run
  {
    if RoutesTo(u.gcs, Extension(e.name)) then GcsRun(u.gcs.value.uploader, e, oracle, n, rev) else Run([], false)
  }

  /** The calls for one walk entry whose first call would be the n-th of the run. */
  function EntryRun(u: FileUploader, e: Entry, oracle: nat -> Reply, n: nat, rev: Revision): Run
    requires u.Valid()
  {
    if !e.isFile then Run([], false)
    else
      var s3 := S3Part(u, e, oracle, n, rev);
      Then(s3, GcsPart(u, e, oracle, n + |s3|, rev))
  }

  /**
   * The walk over `entries` when `step(e, k)` is the run of entry `e` whose
   * first call is the k-th: the entries in order, up to the first run that
   * lets a NotFound escape.
   */
  function WalkOf(step: (Entry, nat) -> Run, entries: seq<Entry>, n: nat): Run
    decreases |entries|
  {
    if entries == [] then Run([], false)
    else
      var before := WalkOf(step, entries[..|entries| - 1], n);
      if before.stopped then before
      else Then(before.calls, step(entries[|entries| - 1], n + |before.calls|))
  }

  /** The run of one entry, as a function of the entry and the position of its first call. */
  function EntryStep(u: FileUploader, oracle: nat -> Reply, rev: Revision): (Entry, nat) -> Run
    requires u.Valid()
  {
    (e: Entry, k: nat) => EntryRun(u, e, oracle, k, rev)
  }

  /** The calls of `upload_files` for the entries of the walk. */
  function WalkRun(u: FileUploader, entries: seq<Entry>, oracle: nat -> Reply, n: nat, rev: Revision): Run
    requires u.Valid()
  {
    WalkOf(EntryStep(u, oracle, rev), entries, n)
  }

  /** The S3 branch of the walk's body. */
  method UploadToS3(u: FileUploader, e: Entry, client: Client, rev: Revision)
    requires u.Valid()
    modifies client
    ensures client.trace == old(client.trace) + S3Part(u, e, client.oracle, |old(client.trace)|, rev)
  {
    if u.s3.Some? && Extension(e.name) in u.s3.value.fileTypes {
      var s3 := u.s3.value.uploader;
      if rev.Patched? && |e.content| > s3.multipartThreshold {
        S3UploadLargeFile(s3, client, e.path, e.content);
      } else {
        S3UploadFile(s3, client, e.path);
      }
    }
  }

  /** The GCS branch of the walk's body; `notFound` is the NotFound it re-raises. */
  method UploadToGcs(u: FileUploader, e: Entry, client: Client, rev: Revision) returns (notFound: bool)
    modifies client
    ensures var r := GcsPart(u, e, client.oracle, |old(client.trace)|, rev);
      client.trace == old(client.trace) + r.calls && notFound == r.stopped
  {
    notFound := false;
    if u.gcs.Some? && Extension(e.name) in u.gcs.value.fileTypes {
      var gcs := u.gcs.value.uploader;
      if rev.Patched? && |e.content| > gcs.chunkSize {
        GcsUploadLargeFile(gcs, client, e.path);
      } else {
        notFound := GcsUploadFile(gcs, client, e.path);
      }
    }
  }

  /** The body of the walk for one entry. */
  method UploadEntry(u: FileUploader, e: Entry, client: Client, rev: Revision) returns (notFound: bool)
    requires u.Valid()
    modifies client
    ensures var r := EntryRun(u, e, client.oracle, |old(client.trace)|, rev);
      client.trace == old(client.trace) + r.calls && notFound == r.stopped
  {
    notFound := false;
    if !e.isFile {
      // not a regular file: reported and skipped
      return;
    }
    ghost var before := client.trace;
    UploadToS3(u, e, client, rev);
    ghost var s3 := S3Part(u, e, client.oracle, |before|, rev);
    notFound := UploadToGcs(u, e, client, rev);
    ghost var gcs := GcsPart(u, e, client.oracle, |before| + |s3|, rev);
    AppendAssoc(before, s3, gcs.calls);
  }

  /** One step of the walk: the entries up to i + 1 are those up to i, then entry i unless the walk stopped before it. */
  lemma WalkOfStep(step: (Entry, nat) -> Run, entries: seq<Entry>, i: nat, n: nat)
    requires i < |entries|
    ensures var before := WalkOf(step, entries[..i], n);
      WalkOf(step, entries[..i + 1], n) ==
        if before.stopped then before else Then(before.calls, step(entries[i], n + |before.calls|))
  {
    assert entries[..i + 1][..i] == entries[..i];
  }

  /** The walk that did not stop before entry i continues with the run of entry i. */
  lemma WalkOfAdvance(step: (Entry, nat) -> Run, entries: seq<Entry>, i: nat, n: nat, run: Run)
    requires i < |entries|
    requires !WalkOf(step, entries[..i], n).stopped
    requires step(entries[i], n + |WalkOf(step, entries[..i], n).calls|) == run
    ensures WalkOf(step, entries[..i + 1], n) == Then(WalkOf(step, entries[..i], n).calls, run)
  {
    WalkOfStep(step, entries, i, n);
  }

  /** Once a NotFound escapes, the later entries add nothing. */
  lemma {:induction false} WalkOfStopsThere(step: (Entry, nat) -> Run, entries: seq<Entry>, i: nat, n: nat)
    requires i <= |entries|
    requires WalkOf(step, entries[..i], n).stopped
    ensures WalkOf(step, entries, n) == WalkOf(step, entries[..i], n)
    decreases |entries|
  {
    if i < |entries| {
      var init := entries[..|entries| - 1];
      assert init[..i] == entries[..i];
      WalkOfStopsThere(step, init, i, n);
    } else {
      assert entries[..i] == entries;
    }
  }

  /** The walk over a prefix of the entries makes a prefix of the calls, and stops only if the whole walk does. */
  lemma {:induction false} WalkOfPrefix(step: (Entry, nat) -> Run, entries: seq<Entry>, j: nat, n: nat)
    requires j <= |entries|
    ensures var p := WalkOf(step, entries[..j], n);
      var w := WalkOf(step, entries, n);
      && |p.calls| <= |w.calls| && w.calls[..|p.calls|] == p.calls
      && (p.stopped ==> w.stopped)
    decreases |entries|
  {
    if j < |entries| {
      var init := entries[..|entries| - 1];
      assert init[..j] == entries[..j];
      WalkOfPrefix(step, init, j, n);
      var p := WalkOf(step, entries[..j], n).calls;
      var wi := WalkOf(step, init, n).calls;
      var w := WalkOf(step, entries, n).calls;
      assert w[..|wi|] == wi;
      assert w[..|p|] == w[..|wi|][..|p|];
    } else {
      assert entries[..j] == entries;
    }
  }

  /**
   * Entry i of a walk that reaches it makes its own calls, as a contiguous
   * block of the walk's calls starting where the calls before it end.
   */
  lemma WalkOfSlot(step: (Entry, nat) -> Run, entries: seq<Entry>, i: nat, n: nat)
    requires i < |entries| && !WalkOf(step, entries[..i], n).stopped
    ensures var m := |WalkOf(step, entries[..i], n).calls|;
      var r := step(entries[i], n + m).calls;
      var w := WalkOf(step, entries, n).calls;
      m + |r| <= |w| && w[m..m + |r|] == r
  {
    WalkOfStep(step, entries, i, n);
    WalkOfPrefix(step, entries, i + 1, n);
    var before := WalkOf(step, entries[..i], n).calls;
    var r := step(entries[i], n + |before|).calls;
    var w := WalkOf(step, entries, n).calls;
    assert w[..|before| + |r|] == before + r;
    assert w[|before|..|before| + |r|] == (before + r)[|before|..];
  }

  /** One pass of the `os.walk` loop: uploads entry i after the entries before it. */
  method WalkAdvance(u: FileUploader, entries: seq<Entry>, i: nat, client: Client, rev: Revision, ghost base: seq<Call>)
    returns (notFound: bool)
    requires u.Valid() && i < |entries|
    requires !WalkRun(u, entries[..i], client.oracle, |base|, rev).stopped
    requires client.trace == base + WalkRun(u, entries[..i], client.oracle, |base|, rev).calls
    modifies client
    ensures var r := WalkRun(u, entries[..i + 1], client.oracle, |base|, rev);
      client.trace == base + r.calls && notFound == r.stopped
  {
    ghost var step := EntryStep(u, client.oracle, rev);
    ghost var before := WalkOf(step, entries[..i], |base|);
    ghost var mid := client.trace;
    assert |mid| == |base| + |before.calls|;
    notFound := UploadEntry(u, entries[i], client, rev);
    ghost var run := EntryRun(u, entries[i], client.oracle, |mid|, rev);
    assert client.trace == mid + run.calls && notFound == run.stopped;
    assert step(entries[i], |base| + |before.calls|) == run;
    WalkOfAdvance(step, entries, i, |base|, run);
    AppendAssoc(base, before.calls, run.calls);
  }

  /** The `os.walk` loop of `upload_files`; `stopped` is the NotFound it lets escape. */
  method Walk(u: FileUploader, entries: seq<Entry>, client: Client, rev: Revision) returns (stopped: bool)
    requires u.Valid()
    modifies client
    ensures var r := WalkRun(u, entries, client.oracle, |old(client.trace)|, rev);
      client.trace == old(client.trace) + r.calls && stopped == r.stopped
  {
    ghost var base := client.trace;
    var i := 0;
    while i < |entries|
      invariant 0 <= i <= |entries|
      invariant !WalkRun(u, entries[..i], client.oracle, |base|, rev).stopped
      invariant client.trace == base + WalkRun(u, entries[..i], client.oracle, |base|, rev).calls
    {
      var notFound := WalkAdvance(u, entries, i, client, rev, base);
      i := i + 1;
      if notFound {
        // the re-raised NotFound leaves the walk
        WalkOfStopsThere(EntryStep(u, client.oracle, rev), entries, i, |base|);
        return true;
      }
    }
    assert entries[..i] == entries;
    return false;
  }

  /** `FileUploader.upload_files`. */
  method UploadFiles(u: FileUploader, listing: Listing, client: Client, rev: Revision) returns (status: WalkStatus)
    requires u.Valid()
    modifies client
    ensures !listing.rootExists ==> status == NoDirectory && client.trace == old(client.trace)
    ensures listing.rootExists ==>
      var r := WalkRun(u, listing.entries, client.oracle, |old(client.trace)|, rev);
      && client.trace == old(client.trace) + r.calls
      && status == if r.stopped then StoppedByNotFound else Finished
  {
    if !listing.rootExists {
      // the missing directory is reported and nothing is uploaded
      return NoDirectory;
    }
    var stopped := Walk(u, listing.entries, client, rev);
    status := if stopped then StoppedByNotFound else Finished;
  }
}
