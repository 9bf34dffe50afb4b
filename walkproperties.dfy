/**
 * What one run of `upload_files` guarantees, stated over the calls it
 * makes: each file starts one upload on every backend that takes its
 * extension and none elsewhere, calls go only to configured backends and
 * carry the file's basename, and the walk ends early exactly at the first
 * GCS single-shot upload that raised NotFound.
 */
module WalkProperties {
  import opened Paths
  import opened Sdk
  import opened Uploaders
  import opened Orchestrator

  /** The number of calls in `calls` that start the upload of a file on `service`. */
  function StartCount(calls: seq<Call>, service: Service): nat
    decreases |calls|
  {
    if calls == [] then 0
    else StartCount(calls[..|calls| - 1], service) + (if Starts(calls[|calls| - 1], service) then 1 else 0)
  }

  lemma {:induction false} StartCountAppend(a: seq<Call>, b: seq<Call>, service: Service)
    ensures StartCount(a + b, service) == StartCount(a, service) + StartCount(b, service)
    decreases |b|
  {
    if b == [] {
      assert a + b == a;
    } else {
      var init := b[..|b| - 1];
      StartCountAppend(a, init, service);
      assert (a + b)[..|a + b| - 1] == a + init;
      assert (a + b)[|a + b| - 1] == b[|b| - 1];
    }
  }

  /** When no call after the first starts an upload, the count is decided by the first. */
  lemma {:induction false} StartCountOfHead(calls: seq<Call>, service: Service)
    requires |calls| >= 1
    requires forall i :: 1 <= i < |calls| ==> !Starts(calls[i], service)
    ensures StartCount(calls, service) == if Starts(calls[0], service) then 1 else 0
    decreases |calls|
  {
    if |calls| > 1 {
      StartCountOfHead(calls[..|calls| - 1], service);
    }
  }

  /** Whether the backend for `service` exists and takes the extension of `e`. */
  predicate RoutesToService(u: FileUploader, e: Entry, service: Service)
  {
    match service
    case S3 => RoutesTo(u.s3, Extension(e.name))
    case GCS => RoutesTo(u.gcs, Extension(e.name))
  }

  /** The number of walk entries that are files routed to `service`. */
  function Qualifying(u: FileUploader, entries: seq<Entry>, service: Service): nat
    decreases |entries|
  {
    if entries == [] then 0
    else
      var last := entries[|entries| - 1];
      Qualifying(u, entries[..|entries| - 1], service) + (if last.isFile && RoutesToService(u, last, service) then 1 else 0)
  }

  /** Where a call may go: to a backend that exists, into its bucket. */
  predicate BelongsTo(u: FileUploader, c: Call)
  {
    match ServiceOf(c)
    case S3 => u.s3.Some? && c.bucket == u.s3.value.uploader.bucketName
    case GCS => u.gcs.Some? && c.bucket == u.gcs.value.uploader.bucketName
  }

  /** The call that starts the S3 upload of `e`: the multipart create above the threshold in new_methods.py, else the put. */
  function S3Start(s3: S3Uploader, e: Entry, rev: Revision): Call
  {
    if rev.Patched? && |e.content| > s3.multipartThreshold then CreateMultipart(s3.bucketName, Basename(e.path))
    else Put(S3, s3.bucketName, Basename(e.path), e.path)
  }

  /** The call that starts the GCS upload of `e`: the resumable upload above the chunk size in new_methods.py, else the put. */
  function GcsStart(gcs: GcsUploader, e: Entry, rev: Revision): Call
  {
    if rev.Patched? && |e.content| > gcs.chunkSize then ResumableUpload(gcs.bucketName, Basename(e.path), e.path, gcs.chunkSize)
    else Put(GCS, gcs.bucketName, Basename(e.path), e.path)
  }

  /** A GCS single-shot upload whose reply was NotFound: the one failure `upload_file` re-raises. */
  predicate GcsPutNotFound(c: Call, reply: Reply)
  {
    c.Put? && c.service == GCS && reply == Raised(NotFound)
  }

  /**
   * A run whose first call is the n-th stops exactly at a GCS put whose
   * reply was NotFound: if it stopped, its last call is one, and no other
   * call is one.
   */
  predicate StopsAtNotFound(r: Run, oracle: nat -> Reply, n: nat)
  {
    && (r.stopped ==> |r.calls| > 0 && GcsPutNotFound(r.calls[|r.calls| - 1], oracle(n + |r.calls| - 1)))
    && (forall i :: 0 <= i < |r.calls| && GcsPutNotFound(r.calls[i], oracle(n + i)) ==> i == |r.calls| - 1 && r.stopped)
  }

  /** Every call goes to a configured backend, into its bucket. */
  predicate AllBelong(u: FileUploader, calls: seq<Call>)
  {
    forall i :: 0 <= i < |calls| ==> BelongsTo(u, calls[i])
  }

  /** The S3 calls for one file start with its start call and start exactly one upload, on S3. */
  lemma S3CallsStart(s3: S3Uploader, e: Entry, oracle: nat -> Reply, n: nat, rev: Revision)
    requires s3.Valid()
    ensures var calls := S3Calls(s3, e, oracle, n, rev);
      && |calls| >= 1 && calls[0] == S3Start(s3, e, rev)
      && (forall i :: 1 <= i < |calls| ==> !Starts(calls[i], S3))
      && StartCount(calls, S3) == 1 && StartCount(calls, GCS) == 0
  {
    var calls := S3Calls(s3, e, oracle, n, rev);
    if rev.Patched? && |e.content| > s3.multipartThreshold {
      MultipartUsesOneUpload(s3.bucketName, Basename(e.path), e.content, s3.multipartChunksize, oracle, n);
    }
    StartCountOfHead(calls, S3);
    StartCountOfHead(calls, GCS);
  }

  /** The S3 calls for one file all go to the S3 bucket, under the file's basename. */
  lemma S3CallsFit(s3: S3Uploader, e: Entry, oracle: nat -> Reply, n: nat, rev: Revision)
    requires s3.Valid()
    ensures var calls := S3Calls(s3, e, oracle, n, rev);
      forall i :: 0 <= i < |calls| ==>
        ServiceOf(calls[i]) == S3 && calls[i].bucket == s3.bucketName && calls[i].key == Basename(e.path)
  {
    if rev.Patched? && |e.content| > s3.multipartThreshold {
      MultipartUsesOneUpload(s3.bucketName, Basename(e.path), e.content, s3.multipartChunksize, oracle, n);
    }
  }

  /** The GCS part of one file: its start call when GCS takes the extension, nothing otherwise. */
  lemma GcsPartShape(u: FileUploader, e: Entry, oracle: nat -> Reply, n: nat, rev: Revision)
    ensures var g := GcsPart(u, e, oracle, n, rev);
      && g.calls == (if RoutesTo(u.gcs, Extension(e.name)) then [GcsStart(u.gcs.value.uploader, e, rev)] else [])
      && (g.stopped <==> |g.calls| == 1 && GcsPutNotFound(g.calls[0], oracle(n)))
  {
  }

  /** The calls of one file are its S3 calls followed by its GCS calls. */
  lemma EntryParts(u: FileUploader, e: Entry, oracle: nat -> Reply, n: nat, rev: Revision)
    requires u.Valid() && e.isFile
    ensures var s3 := S3Part(u, e, oracle, n, rev);
      var g := GcsPart(u, e, oracle, n + |s3|, rev);
      EntryRun(u, e, oracle, n, rev) == Run(s3 + g.calls, g.stopped)
  {
  }

  /** The S3 part of one file starts one upload on S3 when S3 takes the extension, and none on GCS. */
  lemma S3PartStartCount(u: FileUploader, e: Entry, oracle: nat -> Reply, n: nat, rev: Revision, service: Service)
    requires u.Valid()
    ensures StartCount(S3Part(u, e, oracle, n, rev), service) == if service == S3 && RoutesTo(u.s3, Extension(e.name)) then 1 else 0
  {
    if RoutesTo(u.s3, Extension(e.name)) {
      S3CallsStart(u.s3.value.uploader, e, oracle, n, rev);
    }
  }

  /** The GCS part of one file starts one upload on GCS when GCS takes the extension, and none on S3. */
  lemma GcsPartStartCount(u: FileUploader, e: Entry, oracle: nat -> Reply, n: nat, rev: Revision, service: Service)
    ensures StartCount(GcsPart(u, e, oracle, n, rev).calls, service) == if service == GCS && RoutesTo(u.gcs, Extension(e.name)) then 1 else 0
  {
    var g := GcsPart(u, e, oracle, n, rev);
    if g.calls != [] {
      assert g.calls[..0] == [];
    }
  }

  /**
   * Fan-out of one entry: a file starts exactly one upload on each backend
   * that takes its extension and none on the others; a non-file starts
   * none.
   */
  lemma EntryStartCount(u: FileUploader, e: Entry, oracle: nat -> Reply, n: nat, rev: Revision, service: Service)
    requires u.Valid()
    ensures StartCount(EntryRun(u, e, oracle, n, rev).calls, service) ==
      if e.isFile && RoutesToService(u, e, service) then 1 else 0
  {
    if e.isFile {
      var s3 := S3Part(u, e, oracle, n, rev);
      var g := GcsPart(u, e, oracle, n + |s3|, rev);
      EntryParts(u, e, oracle, n, rev);
      S3PartStartCount(u, e, oracle, n, rev, service);
      GcsPartStartCount(u, e, oracle, n + |s3|, rev, service);
      StartCountAppend(s3, g.calls, service);
    }
  }

  /**
   * The start calls of one entry: the S3 start comes first, the GCS start
   * last, and each is the large-file variant exactly when new_methods.py
   * picks it.
   */
  lemma EntryStartCalls(u: FileUploader, e: Entry, oracle: nat -> Reply, n: nat, rev: Revision)
    requires u.Valid()
    ensures var r := EntryRun(u, e, oracle, n, rev);
      && (forall i :: 0 <= i < |r.calls| && Starts(r.calls[i], S3) ==>
            i == 0 && u.s3.Some? && r.calls[i] == S3Start(u.s3.value.uploader, e, rev))
      && (forall i :: 0 <= i < |r.calls| && Starts(r.calls[i], GCS) ==>
            i == |r.calls| - 1 && u.gcs.Some? && r.calls[i] == GcsStart(u.gcs.value.uploader, e, rev))
  {
    if e.isFile {
      var s3 := S3Part(u, e, oracle, n, rev);
      var g := GcsPart(u, e, oracle, n + |s3|, rev);
      var calls := s3 + g.calls;
      EntryParts(u, e, oracle, n, rev);
      if RoutesTo(u.s3, Extension(e.name)) {
        S3CallsStart(u.s3.value.uploader, e, oracle, n, rev);
        S3CallsFit(u.s3.value.uploader, e, oracle, n, rev);
      }
      GcsPartShape(u, e, oracle, n + |s3|, rev);
      forall i | 0 <= i < |calls| && Starts(calls[i], S3)
        ensures i == 0 && u.s3.Some? && calls[i] == S3Start(u.s3.value.uploader, e, rev)
      {
        assert i < |s3| && calls[i] == s3[i];
      }
      forall i | 0 <= i < |calls| && Starts(calls[i], GCS)
        ensures i == |calls| - 1 && u.gcs.Some? && calls[i] == GcsStart(u.gcs.value.uploader, e, rev)
      {
        assert i >= |s3| && calls[i] == g.calls[i - |s3|];
      }
    }
  }

  /** Every call for one entry goes to a configured backend, under the entry's basename; only the last can go to GCS. */
  lemma EntryCallsFit(u: FileUploader, e: Entry, oracle: nat -> Reply, n: nat, rev: Revision)
    requires u.Valid()
    ensures var r := EntryRun(u, e, oracle, n, rev);
      && (forall i :: 0 <= i < |r.calls| ==> BelongsTo(u, r.calls[i]) && r.calls[i].key == Basename(e.path))
      && (forall i :: 0 <= i < |r.calls| - 1 ==> ServiceOf(r.calls[i]) == S3)
  {
    if e.isFile {
      var s3 := S3Part(u, e, oracle, n, rev);
      var g := GcsPart(u, e, oracle, n + |s3|, rev);
      var calls := s3 + g.calls;
      EntryParts(u, e, oracle, n, rev);
      if RoutesTo(u.s3, Extension(e.name)) {
        S3CallsFit(u.s3.value.uploader, e, oracle, n, rev);
      }
      GcsPartShape(u, e, oracle, n + |s3|, rev);
      forall i | 0 <= i < |calls|
        ensures BelongsTo(u, calls[i]) && calls[i].key == Basename(e.path)
      {
        if i < |s3| {
          assert calls[i] == s3[i];
        } else {
          assert calls[i] == g.calls[i - |s3|];
        }
      }
      forall i | 0 <= i < |calls| - 1
        ensures ServiceOf(calls[i]) == S3
      {
        assert i < |s3| && calls[i] == s3[i];
      }
    }
  }

  /**
   * One entry ends the walk exactly when its last call is a GCS put whose
   * reply was NotFound; no earlier call of the entry is one.
   */
  lemma EntryStop(u: FileUploader, e: Entry, oracle: nat -> Reply, n: nat, rev: Revision)
    requires u.Valid()
    ensures StopsAtNotFound(EntryRun(u, e, oracle, n, rev), oracle, n)
  {
    if e.isFile {
      var s3 := S3Part(u, e, oracle, n, rev);
      var g := GcsPart(u, e, oracle, n + |s3|, rev);
      var calls := s3 + g.calls;
      EntryParts(u, e, oracle, n, rev);
      if RoutesTo(u.s3, Extension(e.name)) {
        S3CallsFit(u.s3.value.uploader, e, oracle, n, rev);
      }
      GcsPartShape(u, e, oracle, n + |s3|, rev);
      if g.stopped {
        assert calls[|calls| - 1] == g.calls[0] && |calls| - 1 == |s3|;
      }
      forall i | 0 <= i < |calls| && GcsPutNotFound(calls[i], oracle(n + i))
        ensures i == |calls| - 1 && g.stopped
      {
        assert i >= |s3| && calls[i] == g.calls[i - |s3|];
      }
    }
  }

  lemma {:induction false} AllBelongAppend(u: FileUploader, a: seq<Call>, b: seq<Call>)
    requires AllBelong(u, a) && AllBelong(u, b)
    ensures AllBelong(u, a + b)
  {
    forall i | 0 <= i < |a + b|
      ensures BelongsTo(u, (a + b)[i])
    {
      if i < |a| {
        assert (a + b)[i] == a[i];
      } else {
        assert (a + b)[i] == b[i - |a|];
      }
    }
  }

  /** Start counts add up over any walk whose entries start the uploads they are routed to. */
  lemma {:induction false} WalkOfStarts(u: FileUploader, step: (Entry, nat) -> Run, entries: seq<Entry>, n: nat, service: Service)
    requires forall e, k :: StartCount(step(e, k).calls, service) == if e.isFile && RoutesToService(u, e, service) then 1 else 0
    ensures var r := WalkOf(step, entries, n);
      && StartCount(r.calls, service) <= Qualifying(u, entries, service)
      && (!r.stopped ==> StartCount(r.calls, service) == Qualifying(u, entries, service))
    decreases |entries|
  {
    if entries != [] {
      var init := entries[..|entries| - 1];
      WalkOfStarts(u, step, init, n, service);
      var before := WalkOf(step, init, n);
      var last := entries[|entries| - 1];
      var q := Qualifying(u, init, service);
      assert Qualifying(u, entries, service) == q + (if last.isFile && RoutesToService(u, last, service) then 1 else 0);
      if !before.stopped {
        var run := step(last, n + |before.calls|);
        assert WalkOf(step, entries, n) == Then(before.calls, run);
        StartCountAppend(before.calls, run.calls, service);
      }
    }
  }

  /** Any walk whose entries' calls belong to configured backends makes only such calls. */
  lemma {:induction false} WalkOfFits(u: FileUploader, step: (Entry, nat) -> Run, entries: seq<Entry>, n: nat)
    requires forall e, k :: AllBelong(u, step(e, k).calls)
    ensures AllBelong(u, WalkOf(step, entries, n).calls)
    decreases |entries|
  {
    if entries != [] {
      var init := entries[..|entries| - 1];
      WalkOfFits(u, step, init, n);
      var before := WalkOf(step, init, n);
      if !before.stopped {
        AllBelongAppend(u, before.calls, step(entries[|entries| - 1], n + |before.calls|).calls);
      }
    }
  }

  /** Any walk whose entries stop exactly at a NotFound put stops exactly at the first such put of the walk. */
  lemma {:induction false} WalkOfStops(step: (Entry, nat) -> Run, entries: seq<Entry>, oracle: nat -> Reply, n: nat)
    requires forall e, k :: StopsAtNotFound(step(e, k), oracle, k)
    ensures StopsAtNotFound(WalkOf(step, entries, n), oracle, n)
    decreases |entries|
  {
    if entries != [] {
      var init := entries[..|entries| - 1];
      WalkOfStops(step, init, oracle, n);
      var before := WalkOf(step, init, n);
      if !before.stopped {
        var m := n + |before.calls|;
        var run := step(entries[|entries| - 1], m);
        assert StopsAtNotFound(run, oracle, m);
        var r := WalkOf(step, entries, n);
        assert r == Then(before.calls, run);
        forall i | 0 <= i < |r.calls| && GcsPutNotFound(r.calls[i], oracle(n + i))
          ensures i == |r.calls| - 1 && r.stopped
        {
          if i >= |before.calls| {
            var j := i - |before.calls|;
            assert r.calls[i] == run.calls[j];
            assert n + i == m + j;
          }
        }
        if r.stopped {
          assert r.calls[|r.calls| - 1] == run.calls[|run.calls| - 1];
        }
      }
    }
  }

  /**
   * Fan-out of `upload_files`: the uploads started on each backend are
   * those of the files routed to it, all of them when the walk was not
   * stopped, and never more.
   */
  lemma WalkStarts(u: FileUploader, entries: seq<Entry>, oracle: nat -> Reply, n: nat, rev: Revision)
    requires u.Valid()
    ensures var r := WalkRun(u, entries, oracle, n, rev);
      forall service ::
        && StartCount(r.calls, service) <= Qualifying(u, entries, service)
        && (!r.stopped ==> StartCount(r.calls, service) == Qualifying(u, entries, service))
  {
    var step := EntryStep(u, oracle, rev);
    forall e, k
      ensures step(e, k) == EntryRun(u, e, oracle, k, rev)
      ensures forall service :: StartCount(step(e, k).calls, service) == if e.isFile && RoutesToService(u, e, service) then 1 else 0
    {
      forall service
        ensures StartCount(step(e, k).calls, service) == if e.isFile && RoutesToService(u, e, service) then 1 else 0
      {
        EntryStartCount(u, e, oracle, k, rev, service);
      }
    }
    forall service
      ensures var r := WalkOf(step, entries, n);
        && StartCount(r.calls, service) <= Qualifying(u, entries, service)
        && (!r.stopped ==> StartCount(r.calls, service) == Qualifying(u, entries, service))
    {
      WalkOfStarts(u, step, entries, n, service);
    }
  }

  /** `upload_files` calls only configured backends, in their buckets: a backend missing from the config gets no call. */
  lemma WalkCallsFit(u: FileUploader, entries: seq<Entry>, oracle: nat -> Reply, n: nat, rev: Revision)
    requires u.Valid()
    ensures AllBelong(u, WalkRun(u, entries, oracle, n, rev).calls)
  {
    var step := EntryStep(u, oracle, rev);
    forall e, k
      ensures AllBelong(u, step(e, k).calls)
    {
      EntryCallsFit(u, e, oracle, k, rev);
    }
    WalkOfFits(u, step, entries, n);
  }

  /**
   * `upload_files` stops exactly at the first GCS single-shot upload whose
   * reply was NotFound: when it stopped, its last call is one, and no other
   * call is one.
   */
  lemma WalkStopsAtFirstNotFound(u: FileUploader, entries: seq<Entry>, oracle: nat -> Reply, n: nat, rev: Revision)
    requires u.Valid()
    ensures StopsAtNotFound(WalkRun(u, entries, oracle, n, rev), oracle, n)
  {
    var step := EntryStep(u, oracle, rev);
    forall e, k
      ensures StopsAtNotFound(step(e, k), oracle, k)
    {
      EntryStop(u, e, oracle, k, rev);
    }
    WalkOfStops(step, entries, oracle, n);
  }

  /** A file's S3 upload starts with its first call and its GCS upload is its last call. */
  lemma EntryStartsPlaced(u: FileUploader, e: Entry, oracle: nat -> Reply, n: nat, rev: Revision)
    requires u.Valid()
    ensures var r := EntryRun(u, e, oracle, n, rev).calls;
      && (e.isFile && RoutesTo(u.s3, Extension(e.name)) ==> |r| > 0 && r[0] == S3Start(u.s3.value.uploader, e, rev))
      && (e.isFile && RoutesTo(u.gcs, Extension(e.name)) ==> |r| > 0 && r[|r| - 1] == GcsStart(u.gcs.value.uploader, e, rev))
  {
    if e.isFile {
      EntryParts(u, e, oracle, n, rev);
      var s3 := S3Part(u, e, oracle, n, rev);
      GcsPartShape(u, e, oracle, n + |s3|, rev);
      if RoutesTo(u.s3, Extension(e.name)) {
        S3CallsStart(u.s3.value.uploader, e, oracle, n, rev);
      }
    }
  }

  /** A walk that is not stopped reaches every entry. */
  lemma WalkReachesEveryEntry(u: FileUploader, entries: seq<Entry>, oracle: nat -> Reply, n: nat, rev: Revision, i: nat)
    requires u.Valid() && i <= |entries|
    requires !WalkRun(u, entries, oracle, n, rev).stopped
    ensures !WalkRun(u, entries[..i], oracle, n, rev).stopped
  {
    WalkOfPrefix(EntryStep(u, oracle, rev), entries, i, n);
  }

  /** The per-entry facts `WalkOfEntryUploads` needs of a step. */
  predicate UploadsOnce(u: FileUploader, r: Run, e: Entry, rev: Revision, service: Service)
  {
    && StartCount(r.calls, service) == (if e.isFile && RoutesToService(u, e, service) then 1 else 0)
    && (e.isFile && RoutesTo(u.s3, Extension(e.name)) ==> |r.calls| > 0 && r.calls[0] == S3Start(u.s3.value.uploader, e, rev))
    && (e.isFile && RoutesTo(u.gcs, Extension(e.name)) ==> |r.calls| > 0 && r.calls[|r.calls| - 1] == GcsStart(u.gcs.value.uploader, e, rev))
  }

  /**
   * Each file the walk reaches gets its own upload on each backend that
   * takes it and none on the others, for any step that runs each entry so
   * (as `StepUploadsOnce` shows the walk's own step does, and `WalkRun` is
   * the walk of that step): entry i's run is the block of the walk's calls
   * that starts where the calls of the entries before it end, and it starts
   * one upload per backend that takes the file, the S3 one first and the GCS
   * one last.
   */
  lemma WalkOfEntryUploads(u: FileUploader, step: (Entry, nat) -> Run, entries: seq<Entry>, n: nat, rev: Revision,
                           i: nat, service: Service)
    requires forall e, k :: UploadsOnce(u, step(e, k), e, rev, service)
    requires i < |entries| && !WalkOf(step, entries[..i], n).stopped
    ensures var m := |WalkOf(step, entries[..i], n).calls|;
      var r := step(entries[i], n + m);
      var w := WalkOf(step, entries, n).calls;
      m + |r.calls| <= |w| && w[m..m + |r.calls|] == r.calls && UploadsOnce(u, r, entries[i], rev, service)
  {
    WalkOfSlot(step, entries, i, n);
  }

  /** The walk's step uploads each entry once per backend that takes it. */
  lemma StepUploadsOnce(u: FileUploader, step: (Entry, nat) -> Run, e: Entry, oracle: nat -> Reply, k: nat,
                        rev: Revision, service: Service)
    requires u.Valid() && step == EntryStep(u, oracle, rev)
    ensures UploadsOnce(u, step(e, k), e, rev, service)
  {
    assert step(e, k) == EntryRun(u, e, oracle, k, rev);
    EntryStartCount(u, e, oracle, k, rev, service);
    EntryStartsPlaced(u, e, oracle, k, rev);
  }
}
