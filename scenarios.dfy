/**
 * The walk of test_file_uploader.py's `test_fileuploader_upload_files`:
 * a directory with an image, a video and a document, images and media
 * routed to S3 and documents to GCS.
 */
module Scenarios {
  import opened Wrappers
  import opened Paths
  import opened Sdk
  import opened Uploaders
  import opened Orchestrator

  /** The file name `stem.ext`. */
  function FileName(stem: string, ext: string): string
  {
    stem + "." + ext
  }

  /** The walk entry of regular file `stem.ext` in directory `dir`, at `os.path.join(dir, stem.ext)`. */
  function TestEntry(dir: string, stem: string, ext: string): Entry
  {
    Entry(FileName(stem, ext), PathJoin(dir, FileName(stem, ext)), true, [])
  }

  /** The file's extension, when `name` is a stem, a dot and a lower-case extension. */
  lemma ExtensionOf(name: string, stem: string, ext: string)
    requires name == stem + "." + ext && '.' !in ext && NoUpper(ext)
    ensures Extension(name) == ext
  {
    ExtensionAfterLastDot(stem, ext);
    LowerKeepsLowercase(ext);
  }

  /** A file routed to exactly one of the two backends makes one put under its basename, on that backend. */
  lemma RoutedEntryRun(u: FileUploader, e: Entry, oracle: nat -> Reply, k: nat)
    requires u.Valid() && u.s3.Some? && u.gcs.Some? && e.isFile
    requires RoutesTo(u.s3, Extension(e.name)) != RoutesTo(u.gcs, Extension(e.name))
    ensures var r := EntryRun(u, e, oracle, k, Original);
      var onS3 := RoutesTo(u.s3, Extension(e.name));
      && r.calls ==
        [Put(if onS3 then S3 else GCS,
             if onS3 then u.s3.value.uploader.bucketName else u.gcs.value.uploader.bucketName,
             Basename(e.path), e.path)]
      && (onS3 ==> !r.stopped)
  {
  }

  /** A walk over three entries of which the first two do not stop it. */
  lemma WalkOfThree(step: (Entry, nat) -> Run, a: Entry, b: Entry, c: Entry, n: nat)
    requires !step(a, n).stopped && !step(b, n + |step(a, n).calls|).stopped
    ensures var ka := step(a, n).calls;
      var kb := step(b, n + |ka|).calls;
      WalkOf(step, [a, b, c], n).calls == ka + kb + step(c, n + |ka| + |kb|).calls
  {
    var ka := step(a, n).calls;
    var kb := step(b, n + |ka|).calls;
    assert [a][..0] == [];
    assert WalkOf(step, [a], n) == Then([], step(a, n));
    assert [a, b][..1] == [a];
    assert WalkOf(step, [a, b], n) == Then([] + ka, step(b, n + |ka|));
    assert [a, b, c][..2] == [a, b];
    assert WalkOf(step, [a, b, c], n) == Then([] + ka + kb, step(c, n + |ka| + |kb|));
  }

  /**
   * Two files routed to S3 and one routed to GCS: the walk puts the first
   * two on S3 and then the third on GCS, each under its basename,
   * whatever the services reply.
   */
  lemma TwoS3OneGcsWalk(u: FileUploader, a: Entry, b: Entry, c: Entry, oracle: nat -> Reply, n: nat)
    requires u.Valid() && u.s3.Some? && u.gcs.Some? && a.isFile && b.isFile && c.isFile
    requires RoutesTo(u.s3, Extension(a.name)) && !RoutesTo(u.gcs, Extension(a.name))
    requires RoutesTo(u.s3, Extension(b.name)) && !RoutesTo(u.gcs, Extension(b.name))
    requires !RoutesTo(u.s3, Extension(c.name)) && RoutesTo(u.gcs, Extension(c.name))
    ensures WalkRun(u, [a, b, c], oracle, n, Original).calls ==
      [ Put(S3, u.s3.value.uploader.bucketName, Basename(a.path), a.path),
        Put(S3, u.s3.value.uploader.bucketName, Basename(b.path), b.path),
        Put(GCS, u.gcs.value.uploader.bucketName, Basename(c.path), c.path) ]
  {
    var step := EntryStep(u, oracle, Original);
    RoutedEntryRun(u, a, oracle, n);
    RoutedEntryRun(u, b, oracle, n + 1);
    RoutedEntryRun(u, c, oracle, n + 2);
    assert step(a, n) == EntryRun(u, a, oracle, n, Original);
    assert step(b, n + 1) == EntryRun(u, b, oracle, n + 1, Original);
    assert step(c, n + 2) == EntryRun(u, c, oracle, n + 2, Original);
    WalkOfThree(step, a, b, c, n);
  }

  /** The extension and basename of a file of the test directory, from its stem and lower-case extension. */
  lemma TestEntryFacts(dir: string, stem: string, ext: string)
    requires '.' !in ext && NoUpper(ext) && '/' !in stem && '/' !in ext
    ensures Extension(TestEntry(dir, stem, ext).name) == ext
    ensures Basename(TestEntry(dir, stem, ext).path) == FileName(stem, ext)
  {
    ExtensionOf(FileName(stem, ext), stem, ext);
    BasenameOfJoin(dir, FileName(stem, ext));
  }

  /** With the test's routing, the image and the video go to S3 only and the document to GCS only. */
  lemma TestDirectoryRouting(u: FileUploader, image: Entry, video: Entry, document: Entry)
    requires u.s3.Some? && u.s3.value.fileTypes == ["jpg", "png", "mp4"]
    requires u.gcs.Some? && u.gcs.value.fileTypes == ["pdf"]
    requires Extension(image.name) == "jpg" && Extension(video.name) == "mp4" && Extension(document.name) == "pdf"
    ensures RoutesTo(u.s3, Extension(image.name)) && !RoutesTo(u.gcs, Extension(image.name))
    ensures RoutesTo(u.s3, Extension(video.name)) && !RoutesTo(u.gcs, Extension(video.name))
    ensures !RoutesTo(u.s3, Extension(document.name)) && RoutesTo(u.gcs, Extension(document.name))
  {
  }

  /**
   * `test_fileuploader_upload_files`, for any directory and any file stems
   * (the test's are test_image, test_video and test_document), when the
   * directory exists and holds the three files as regular files: both S3
   * files are put under their basenames, then the document goes to GCS,
   * whatever the services reply.
   */
  lemma TestDirectoryWalk(dir: string, image: string, video: string, document: string,
                          s3: S3Uploader, gcs: GcsUploader, oracle: nat -> Reply, n: nat)
    requires s3.Valid()
    requires '/' !in image && '/' !in video && '/' !in document
    ensures var u := FileUploader(Some(Active(s3, ["jpg", "png", "mp4"])), Some(Active(gcs, ["pdf"])));
      var entries := [TestEntry(dir, image, "jpg"), TestEntry(dir, video, "mp4"), TestEntry(dir, document, "pdf")];
      WalkRun(u, entries, oracle, n, Original).calls ==
        [ Put(S3, s3.bucketName, FileName(image, "jpg"), PathJoin(dir, FileName(image, "jpg"))),
          Put(S3, s3.bucketName, FileName(video, "mp4"), PathJoin(dir, FileName(video, "mp4"))),
          Put(GCS, gcs.bucketName, FileName(document, "pdf"), PathJoin(dir, FileName(document, "pdf"))) ]
  {
    var u := FileUploader(Some(Active(s3, ["jpg", "png", "mp4"])), Some(Active(gcs, ["pdf"])));
    var a, b, c := TestEntry(dir, image, "jpg"), TestEntry(dir, video, "mp4"), TestEntry(dir, document, "pdf");
    TestEntryFacts(dir, image, "jpg");
    TestEntryFacts(dir, video, "mp4");
    TestEntryFacts(dir, document, "pdf");
    TestDirectoryRouting(u, a, b, c);
    TwoS3OneGcsWalk(u, a, b, c, oracle, n);
  }

  /** The paths the test expects: `test_directory` joined with each of its three files. */
  lemma TestDirectoryPaths()
    ensures PathJoin("test_directory", FileName("test_image", "jpg")) == "test_directory/test_image.jpg"
    ensures PathJoin("test_directory", FileName("test_video", "mp4")) == "test_directory/test_video.mp4"
    ensures PathJoin("test_directory", FileName("test_document", "pdf")) == "test_directory/test_document.pdf"
  {
  }
}
