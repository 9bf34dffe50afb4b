/**
 * `FileUploader.get_file_ext`: expand the category names a backend accepts
 * into the list of file extensions routed to it.
 */
module Routing {
  import opened Wrappers

  /** The config's "file_types": category name to its extensions. */
  type FileTypes = map<string, seq<string>>

  /** `upload_file_types`: backend key to the category names it accepts. */
  type UploadFileTypes = map<string, seq<string>>

  /** `FileUploader.UPLOAD_FILE_TYPES`. */
  const DefaultUploadFileTypes: UploadFileTypes := map["s3" := ["image", "media"], "gcs" := ["document"]]

  /**
   * The KeyErrors of `get_file_ext`: `upload_file_types[backend]` for a
   * backend without an entry, and `config["file_types"]` for a config
   * without that key, raised only once there is a category to look up.
   */
  datatype RoutingError = UnknownBackend(backend: string) | NoFileTypes

  /** `get_file_ext(backend)` raises. */
  predicate RoutingFails(uploadFileTypes: UploadFileTypes, fileTypes: Option<FileTypes>, backend: string)
  {
    backend !in uploadFileTypes || (fileTypes.None? && uploadFileTypes[backend] != [])
  }

  /** The KeyError `get_file_ext(backend)` raises when it raises. */
  function RoutingErrorOf(uploadFileTypes: UploadFileTypes, backend: string): RoutingError
  {
    if backend !in uploadFileTypes then UnknownBackend(backend) else NoFileTypes
  }

  /** The extensions of `categories`; without "file_types" only an empty category list gets this far. */
  function Extensions(categories: seq<string>, fileTypes: Option<FileTypes>): seq<string>
  {
    if fileTypes.Some? then Expand(categories, fileTypes.value) else []
  }

  /** What one category adds: its extensions, or nothing when it is not defined. */
  function Contribution(category: string, fileTypes: FileTypes): seq<string>
  {
    if category in fileTypes then fileTypes[category] else []
  }

  /** The extensions of `categories`, in order, skipping undefined categories. */
  function Expand(categories: seq<string>, fileTypes: FileTypes): seq<string>
    decreases |categories|
  {
    if categories == [] then []
    else Expand(categories[..|categories| - 1], fileTypes) + Contribution(categories[|categories| - 1], fileTypes)
  }

  /** `get_file_ext`; `fileTypes` is the config's "file_types", `None` when the config has no such key. */
  method GetFileExt(uploadFileTypes: UploadFileTypes, fileTypes: Option<FileTypes>, backend: string)
    returns (r: Result<seq<string>, RoutingError>)
    ensures backend !in uploadFileTypes ==> r == Failure(UnknownBackend(backend))
    ensures backend in uploadFileTypes && fileTypes.None? ==>
      r == if uploadFileTypes[backend] == [] then Success([]) else Failure(NoFileTypes)
    ensures backend in uploadFileTypes && fileTypes.Some? ==> r == Success(Expand(uploadFileTypes[backend], fileTypes.value))
  {
    if backend !in uploadFileTypes {
      return Failure(UnknownBackend(backend));
    }
    var categories := uploadFileTypes[backend];
    var extensions: seq<string> := [];
    for i := 0 to |categories|
      invariant fileTypes.None? ==> i == 0 && extensions == []
      invariant fileTypes.Some? ==> extensions == Expand(categories[..i], fileTypes.value)
    {
      if fileTypes.None? {
        // the first category's lookup in the missing "file_types" raises
        return Failure(NoFileTypes);
      }
      var category := categories[i];
      if category in fileTypes.value {
        extensions := extensions + fileTypes.value[category];
      }
      // an undefined category is reported and skipped
      assert categories[..i + 1][..i] == categories[..i];
    }
    assert categories[..|categories|] == categories;
    return Success(extensions);
  }

  /** Expanding a concatenation concatenates the expansions. */
  lemma {:induction false} ExpandAppend(a: seq<string>, b: seq<string>, fileTypes: FileTypes)
    ensures Expand(a + b, fileTypes) == Expand(a, fileTypes) + Expand(b, fileTypes)
    decreases |b|
  {
    if b == [] {
      assert a + b == a;
    } else {
      var b' := b[..|b| - 1];
      assert (a + b)[..|a + b| - 1] == a + b';
      ExpandAppend(a, b', fileTypes);
    }
  }

  /** An extension is routed iff some accepted category is defined and lists it. */
  lemma {:induction false} ExpandMembers(categories: seq<string>, fileTypes: FileTypes, ext: string)
    ensures ext in Expand(categories, fileTypes) <==>
      exists j :: 0 <= j < |categories| && categories[j] in fileTypes && ext in fileTypes[categories[j]]
    decreases |categories|
  {
    if categories != [] {
      var init := categories[..|categories| - 1];
      ExpandMembers(init, fileTypes, ext);
      if ext in Expand(init, fileTypes) {
        var j :| 0 <= j < |init| && init[j] in fileTypes && ext in fileTypes[init[j]];
        assert categories[j] == init[j];
      }
      if exists j :: 0 <= j < |categories| && categories[j] in fileTypes && ext in fileTypes[categories[j]] {
        var j :| 0 <= j < |categories| && categories[j] in fileTypes && ext in fileTypes[categories[j]];
        if j < |init| {
          assert init[j] == categories[j];
        }
      }
    }
  }

  /** A category missing from "file_types" contributes nothing and does not stop the expansion. */
  lemma UndefinedCategoryIsSkipped(before: seq<string>, category: string, after: seq<string>, fileTypes: FileTypes)
    requires category !in fileTypes
    ensures Expand(before + [category] + after, fileTypes) == Expand(before + after, fileTypes)
  {
    assert [category][..0] == [];
    assert Expand([category], fileTypes) == [];
    ExpandAppend(before, [category], fileTypes);
    assert Expand(before + [category], fileTypes) == Expand(before, fileTypes);
    ExpandAppend(before + [category], after, fileTypes);
    ExpandAppend(before, after, fileTypes);
  }

  /** The configuration of the test suite gives s3 {jpg, png, mp4} and gcs {pdf}. */
  lemma DefaultRoutingExample()
    ensures var fileTypes := map["image" := ["jpg", "png"], "media" := ["mp4"], "document" := ["pdf"]];
      && (set e | e in Expand(DefaultUploadFileTypes["s3"], fileTypes)) == {"jpg", "png", "mp4"}
      && (set e | e in Expand(DefaultUploadFileTypes["gcs"], fileTypes)) == {"pdf"}
  {
    var fileTypes := map["image" := ["jpg", "png"], "media" := ["mp4"], "document" := ["pdf"]];
    assert ["image", "media"][..1] == ["image"];
    assert Expand(["image"], fileTypes) == ["jpg", "png"];
    assert Expand(["image", "media"], fileTypes) == ["jpg", "png", "mp4"];
    assert Expand(["document"], fileTypes) == ["pdf"];
  }
}
