/**
 * Pure string helpers of file_uploader.py: Python's `str.split` with a
 * one-character separator, the last component of a split (used for the
 * object key, `os.path.basename`, and for the file extension) and ASCII
 * lower-casing.
 */
module Paths {

  /** `s.split(sep)` in Python: never empty; "" splits into [""]. */
  function Split(s: string, sep: char): (r: seq<string>)
    ensures |r| >= 1
    ensures |r| == 1 <==> sep !in s
    ensures sep !in s ==> r == [s]
    decreases |s|
  {
    if |s| == 0 then [""]
    else
      var rest := Split(s[1..], sep);
      if s[0] == sep then [""] + rest
      else
        assert s == [s[0]] + s[1..];
        [[s[0]] + rest[0]] + rest[1..]
  }

  /** `sep.join(pieces)` in Python. */
  function Join(pieces: seq<string>, sep: char): string
    requires |pieces| >= 1
    decreases |pieces|
  {
    if |pieces| == 1 then pieces[0] else pieces[0] + [sep] + Join(pieces[1..], sep)
  }

  /** `s.split(sep)[-1]`, literally. */
  function SplitLast(s: string, sep: char): string
  {
    var pieces := Split(s, sep);
    pieces[|pieces| - 1]
  }

  /** The text after the last `sep` of `s` (all of `s` when it has none), read from the back. */
  function LastPiece(s: string, sep: char): (r: string)
    ensures |r| <= |s| && sep !in r
    decreases |s|
  {
    if |s| == 0 || s[|s| - 1] == sep then "" else LastPiece(s[..|s| - 1], sep) + [s[|s| - 1]]
  }

  /** The object key of a file: `os.path.basename(path)`, the text after the last '/'. */
  function Basename(path: string): (r: string)
    ensures |r| <= |path| && '/' !in r
  {
    LastPiece(path, '/')
  }

  /**
   * `os.path.join(dir, name)` on POSIX: an absolute `name` replaces `dir`;
   * otherwise `name` is appended, after a '/' unless `dir` is empty or
   * already ends with one.
   */
  function PathJoin(dir: string, name: string): string
  {
    if |name| > 0 && name[0] == '/' then name
    else if dir == "" || dir[|dir| - 1] == '/' then dir + name
    else dir + "/" + name
  }

  /**
   * The routing extension of a file name, `name.split('.')[-1].lower()`:
   * the text after the last '.' (the whole name when it has none), lower-cased.
   */
  function Extension(name: string): (r: string)
    ensures |r| <= |name| && NoUpper(r)
  {
    var t := LastPiece(name, '.');
    LowerHasNoUpper(t);
    Lower(t)
  }

  function LowerChar(c: char): char
  {
    if 'A' <= c <= 'Z' then (c as int + 32) as char else c
  }

  /** `str.lower()` restricted to ASCII letters. */
  function Lower(s: string): (r: string)
    ensures |r| == |s|
    decreases |s|
  {
    if |s| == 0 then "" else [LowerChar(s[0])] + Lower(s[1..])
  }

  predicate NoUpper(s: string)
  {
    forall i :: 0 <= i < |s| ==> !('A' <= s[i] <= 'Z')
  }

  /** Splitting and joining again gives back the string, and no piece holds the separator. */
  lemma {:induction false} SplitJoin(s: string, sep: char)
    ensures Join(Split(s, sep), sep) == s
    ensures forall i :: 0 <= i < |Split(s, sep)| ==> sep !in Split(s, sep)[i]
    decreases |s|
  {
    if |s| > 0 {
      SplitJoin(s[1..], sep);
      var rest := Split(s[1..], sep);
      if s[0] == sep {
        assert Split(s, sep) == [""] + rest;
        assert ([""] + rest)[1..] == rest;
      } else {
        var r := Split(s, sep);
        assert r == [[s[0]] + rest[0]] + rest[1..];
        assert r[1..] == rest[1..];
        if |rest| > 1 {
          assert Join(rest, sep) == rest[0] + [sep] + Join(rest[1..], sep);
        }
        assert s == [s[0]] + s[1..];
      }
    }
  }

  /** A suffix of `s` that holds no `sep` and is either all of `s` or preceded by `sep`. */
  predicate LongestSuffixWithout(s: string, sep: char, r: string)
  {
    && |r| <= |s| && s[|s| - |r|..] == r && sep !in r
    && (|r| == |s| || s[|s| - |r| - 1] == sep)
  }

  /** The last piece of a `split` is the longest suffix without `sep`. */
  lemma {:induction false} SplitLastIsLongestSuffix(s: string, sep: char)
    ensures LongestSuffixWithout(s, sep, SplitLast(s, sep))
    decreases |s|
  {
    if |s| > 0 {
      SplitLastIsLongestSuffix(s[1..], sep);
      if s[0] == sep {
        SplitLastAfterLeadingSeparator(s, sep);
      } else {
        SplitLastAfterLeadingChar(s, sep);
      }
    }
  }

  /** The step of `SplitLastIsLongestSuffix` when `s` starts with `sep`. */
  lemma SplitLastAfterLeadingSeparator(s: string, sep: char)
    requires |s| > 0 && s[0] == sep
    requires LongestSuffixWithout(s[1..], sep, SplitLast(s[1..], sep))
    ensures LongestSuffixWithout(s, sep, SplitLast(s, sep))
  {
    var rest := Split(s[1..], sep);
    var t := rest[|rest| - 1];
    assert Split(s, sep) == [""] + rest;
    assert SplitLast(s, sep) == t;
    assert s[|s| - |t|..] == s[1..][|s| - 1 - |t|..];
    if |t| == |s| - 1 {
      assert s[|s| - |t| - 1] == s[0];
    } else {
      assert s[|s| - |t| - 1] == s[1..][|s| - 1 - |t| - 1];
    }
  }

  /** The step of `SplitLastIsLongestSuffix` when `s` starts with another character. */
  lemma SplitLastAfterLeadingChar(s: string, sep: char)
    requires |s| > 0 && s[0] != sep
    requires LongestSuffixWithout(s[1..], sep, SplitLast(s[1..], sep))
    ensures LongestSuffixWithout(s, sep, SplitLast(s, sep))
  {
    var rest := Split(s[1..], sep);
    var t := rest[|rest| - 1];
    assert Split(s, sep) == [[s[0]] + rest[0]] + rest[1..];
    if |rest| == 1 {
      assert t == s[1..];
      assert SplitLast(s, sep) == [s[0]] + t;
      assert s == [s[0]] + s[1..];
    } else {
      assert SplitLast(s, sep) == t;
      assert s[|s| - |t|..] == s[1..][|s| - 1 - |t|..];
      assert s[|s| - |t| - 1] == s[1..][|s| - 1 - |t| - 1];
    }
  }

  /** `LastPiece` is the longest suffix without `sep`. */
  lemma {:induction false} LastPieceIsLongestSuffix(s: string, sep: char)
    ensures LongestSuffixWithout(s, sep, LastPiece(s, sep))
    decreases |s|
  {
    if |s| > 0 && s[|s| - 1] != sep {
      var init := s[..|s| - 1];
      LastPieceIsLongestSuffix(init, sep);
      var t := LastPiece(init, sep);
      var r := t + [s[|s| - 1]];
      assert s[|s| - |r|..] == init[|init| - |t|..] + [s[|s| - 1]];
      if |t| < |init| {
        assert s[|s| - |r| - 1] == init[|init| - |t| - 1];
      }
    }
  }

  /** A longest suffix without `sep` is at least as long as any other one. */
  lemma LongestSuffixNotShorter(s: string, sep: char, r1: string, r2: string)
    requires LongestSuffixWithout(s, sep, r1) && LongestSuffixWithout(s, sep, r2)
    ensures |r1| >= |r2|
  {
  }

  /** There is only one longest suffix without `sep`. */
  lemma LongestSuffixUnique(s: string, sep: char, r1: string, r2: string)
    requires LongestSuffixWithout(s, sep, r1) && LongestSuffixWithout(s, sep, r2)
    ensures r1 == r2
  {
    LongestSuffixNotShorter(s, sep, r1, r2);
    LongestSuffixNotShorter(s, sep, r2, r1);
  }

  /** `LastPiece` computes `s.split(sep)[-1]`. */
  lemma LastPieceIsSplitLast(s: string, sep: char)
    ensures LastPiece(s, sep) == SplitLast(s, sep)
  {
    LastPieceIsLongestSuffix(s, sep);
    SplitLastIsLongestSuffix(s, sep);
    LongestSuffixUnique(s, sep, LastPiece(s, sep), SplitLast(s, sep));
  }

  /** The piece after the last separator: `LastPiece(prefix + [sep] + tail) == tail` for a `tail` without `sep`. */
  lemma {:induction false} LastPieceAfterSeparator(prefix: string, sep: char, tail: string)
    requires sep !in tail
    ensures LastPiece(prefix + [sep] + tail, sep) == tail
    decreases |tail|
  {
    var s := prefix + [sep] + tail;
    if tail == [] {
      assert s[|s| - 1] == sep;
    } else {
      var init := tail[..|tail| - 1];
      assert s[..|s| - 1] == prefix + [sep] + init;
      assert s[|s| - 1] == tail[|tail| - 1];
      LastPieceAfterSeparator(prefix, sep, init);
      assert init + [tail[|tail| - 1]] == tail;
    }
  }

  /** A string without separator is its own last piece. */
  lemma LastPieceWithoutSeparator(s: string, sep: char)
    requires sep !in s
    ensures LastPiece(s, sep) == s
  {
    LastPieceIsLongestSuffix(s, sep);
  }

  /** The extension is the lower-cased text after the last '.', e.g. "a.tar.gz" has extension "gz". */
  lemma ExtensionAfterLastDot(stem: string, ext: string)
    requires '.' !in ext
    ensures Extension(stem + "." + ext) == Lower(ext)
    ensures NoUpper(Extension(stem + "." + ext))
  {
    LastPieceAfterSeparator(stem, '.', ext);
    LowerHasNoUpper(ext);
  }

  /** A name without '.' is, lower-cased, its own extension ("README" routes as "readme"). */
  lemma ExtensionWithoutDot(name: string)
    requires '.' !in name
    ensures Extension(name) == Lower(name)
  {
    LastPieceWithoutSeparator(name, '.');
  }

  /** Joining a directory and a file name with '/' gives a path whose basename is the name. */
  /**
   * The shape of `os.path.join(dir, name)`: an absolute `name` is the whole
   * result; otherwise the result starts with `dir` and, in every case, it
   * ends with `name`.
   */
  lemma PathJoinShape(dir: string, name: string)
    ensures var r := PathJoin(dir, name);
      && (|name| > 0 && name[0] == '/' ==> r == name)
      && (!(|name| > 0 && name[0] == '/') ==> |dir| <= |r| && r[..|dir|] == dir)
      && |name| <= |r| && r[|r| - |name|..] == name
  {
  }

  /** An empty directory adds nothing and a trailing '/' is not doubled. */
  lemma PathJoinExamples()
    ensures PathJoin("", "x.jpg") == "x.jpg"
    ensures PathJoin("d/", "x.jpg") == "d/x.jpg"
    ensures PathJoin("d", "x.jpg") == "d/x.jpg"
    ensures PathJoin("d", "/x.jpg") == "/x.jpg"
  {
  }

  lemma BasenameOfJoin(dir: string, name: string)
    requires '/' !in name
    ensures Basename(PathJoin(dir, name)) == name
  {
    if dir == "" {
      assert PathJoin(dir, name) == name;
      LastPieceWithoutSeparator(name, '/');
    } else if dir[|dir| - 1] == '/' {
      var init := dir[..|dir| - 1];
      assert PathJoin(dir, name) == init + ['/'] + name;
      LastPieceAfterSeparator(init, '/', name);
    } else {
      assert PathJoin(dir, name) == dir + ['/'] + name;
      LastPieceAfterSeparator(dir, '/', name);
    }
  }

  /** Lower-casing leaves a string without upper-case letters unchanged. */
  lemma {:induction false} LowerKeepsLowercase(s: string)
    requires NoUpper(s)
    ensures Lower(s) == s
    decreases |s|
  {
    if |s| > 0 {
      LowerKeepsLowercase(s[1..]);
      assert s == [s[0]] + s[1..];
    }
  }

  /** Lower-casing leaves no upper-case letter. */
  lemma {:induction false} LowerHasNoUpper(s: string)
    ensures NoUpper(Lower(s))
    decreases |s|
  {
    if |s| > 0 {
      LowerHasNoUpper(s[1..]);
      assert forall i :: 1 <= i < |s| ==> Lower(s)[i] == Lower(s[1..])[i - 1];
    }
  }

  lemma ExtensionOfDoubleSuffix()
    ensures Extension("a.tar.gz") == "gz"
  {
    assert "a.tar.gz" == "a.tar" + "." + "gz";
    ExtensionAfterLastDot("a.tar", "gz");
    LowerKeepsLowercase("gz");
  }

  lemma ExtensionOfUpperCaseName()
    ensures Extension("photo.JPG") == "jpg"
  {
    assert "photo.JPG" == "photo" + "." + "JPG";
    ExtensionAfterLastDot("photo", "JPG");
    assert Lower("JPG") == "jpg";
  }

  lemma ExtensionOfNameWithoutDot()
    ensures Extension("README") == "readme"
  {
    ExtensionWithoutDot("README");
    assert Lower("README") == "readme";
  }
}
