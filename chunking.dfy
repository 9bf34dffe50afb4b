/**
 * Splitting file content into the pieces that successive
 * `file.read(multipart_chunksize)` calls return, until `b''`.
 */
module Chunking {

  /** `math.ceil(a / b)` on naturals. */
  function CeilDiv(a: nat, b: nat): nat
    requires b > 0
  {
    (a + b - 1) / b
  }

  lemma CeilDivOfSmall(a: nat, b: nat)
    requires 0 < a <= b
    ensures CeilDiv(a, b) == 1
  {
    assert b <= a + b - 1 < 2 * b;
  }

  lemma MulAtLeast(d: int, b: int)
    requires d >= 1 && b > 0
    ensures d * b >= b
  {
    assert d * b == b + (d - 1) * b;
  }

  /** Euclidean division is determined by quotient and remainder. */
  lemma DivUnique(n: int, b: int, q: int, r: int)
    requires b > 0 && 0 <= r < b && n == q * b + r
    ensures n / b == q
  {
    var q', r' := n / b, n % b;
    assert n == q' * b + r';
    var d := q - q';
    assert d * b == q * b - q' * b;
    if d >= 1 {
      MulAtLeast(d, b);
    } else if d <= -1 {
      MulAtLeast(-d, b);
    }
  }

  lemma CeilDivStep(a: nat, b: nat)
    requires 0 < b < a
    ensures CeilDiv(a, b) == CeilDiv(a - b, b) + 1
  {
    var n := a - b + b - 1;
    var q, r := n / b, n % b;
    assert n == q * b + r;
    assert a + b - 1 == (q + 1) * b + r;
    DivUnique(a + b - 1, b, q + 1, r);
  }

  /** The successive reads of `s`, `size` elements at a time, until nothing is left. */
  function Chunks<T>(s: seq<T>, size: nat): (r: seq<seq<T>>)
    requires size > 0
    ensures r == [] <==> s == []
    decreases |s|
  {
    if |s| == 0 then []
    else if |s| <= size then [s]
    else [s[..size]] + Chunks(s[size..], size)
  }

  /** There are ceil(|s| / size) reads. */
  lemma {:induction false} ChunksCount<T>(s: seq<T>, size: nat)
    requires size > 0
    ensures |Chunks(s, size)| == CeilDiv(|s|, size)
    decreases |s|
  {
    if 0 < |s| <= size {
      CeilDivOfSmall(|s|, size);
    } else if |s| > size {
      CeilDivStep(|s|, size);
      ChunksCount(s[size..], size);
    }
  }

  /** Every read but the last is full; none is empty. */
  lemma {:induction false} ChunkSizes<T>(s: seq<T>, size: nat)
    requires size > 0
    ensures var r := Chunks(s, size);
      && (forall i :: 0 <= i < |r| ==> 0 < |r[i]| <= size)
      && (forall i :: 0 <= i < |r| - 1 ==> |r[i]| == size)
    decreases |s|
  {
    if |s| > size {
      ChunkSizes(s[size..], size);
      var r := Chunks(s, size);
      assert r == [s[..size]] + Chunks(s[size..], size);
      assert forall i :: 1 <= i < |r| ==> r[i] == Chunks(s[size..], size)[i - 1];
    }
  }

  function Flatten<T>(pieces: seq<seq<T>>): seq<T>
    decreases |pieces|
  {
    if pieces == [] then [] else pieces[0] + Flatten(pieces[1..])
  }

  /** The pieces, put back together, are the content. */
  lemma {:induction false} FlattenChunks<T>(s: seq<T>, size: nat)
    requires size > 0
    ensures Flatten(Chunks(s, size)) == s
    decreases |s|
  {
    if |s| > size {
      FlattenChunks(s[size..], size);
      var c := Chunks(s, size);
      assert c == [s[..size]] + Chunks(s[size..], size);
      assert c[1..] == Chunks(s[size..], size);
      assert s == s[..size] + s[size..];
    } else if |s| > 0 {
      assert Chunks(s, size) == [s];
      assert Flatten([s]) == s + Flatten([]);
    }
  }

  /** The first read from `s` returns `min(size, |s|)` bytes; the rest is chunked alike. */
  lemma ChunksUnfold<T>(s: seq<T>, size: nat)
    requires size > 0 && s != []
    ensures var n := if |s| < size then |s| else size;
      Chunks(s, size) == [s[..n]] + Chunks(s[n..], size)
  {
    if |s| <= size {
      assert s[..|s|] == s;
      assert s[|s|..] == [];
    }
  }

  /** Flattening distributes over concatenation. */
  lemma {:induction false} FlattenAppend<T>(a: seq<seq<T>>, b: seq<seq<T>>)
    ensures Flatten(a + b) == Flatten(a) + Flatten(b)
    decreases |a|
  {
    if a == [] {
      assert a + b == b;
    } else {
      assert (a + b)[1..] == a[1..] + b;
      FlattenAppend(a[1..], b);
    }
  }
}
