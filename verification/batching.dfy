/**
  The sequence helpers of the training loop: `zip`, which pairs inputs with expected
  outputs, and `makeBatch`, which cuts the shuffled training pairs into mini-batches.
 */
module Batching {

  // ---------------------------------------------------------------------------
  // zip

  /**
    `zip(lhs, rhs)`: appends (lhs[i], rhs[i]) for i = 0, 1, ... while i < |lhs|. rhs is
    indexed at every such i, so it must be at least as long as lhs.
   */
  function Zip<T>(lhs: seq<T>, rhs: seq<T>): (r: seq<(T, T)>)
    requires |rhs| >= |lhs|
    ensures |r| == |lhs|
    ensures forall i :: 0 <= i < |lhs| ==> r[i] == (lhs[i], rhs[i])
  {
    if |lhs| == 0 then []
    else Zip(lhs[..|lhs| - 1], rhs) + [(lhs[|lhs| - 1], rhs[|lhs| - 1])]
  }

  function Firsts<T>(ps: seq<(T, T)>): (r: seq<T>)
    ensures |r| == |ps| && forall i :: 0 <= i < |ps| ==> r[i] == ps[i].0
  {
    seq(|ps|, i requires 0 <= i < |ps| => ps[i].0)
  }

  function Seconds<T>(ps: seq<(T, T)>): (r: seq<T>)
    ensures |r| == |ps| && forall i :: 0 <= i < |ps| ==> r[i] == ps[i].1
  {
    seq(|ps|, i requires 0 <= i < |ps| => ps[i].1)
  }

  /** Unzipping a zip gives back lhs and the first |lhs| elements of rhs. */
  lemma UnzipZip<T>(lhs: seq<T>, rhs: seq<T>)
    requires |rhs| >= |lhs|
    ensures Firsts(Zip(lhs, rhs)) == lhs
    ensures Seconds(Zip(lhs, rhs)) == rhs[..|lhs|]
  {
  }

  // ---------------------------------------------------------------------------
  // Concatenation of batches

  function Flatten<T>(ss: seq<seq<T>>): seq<T> {
    if |ss| == 0 then [] else ss[0] + Flatten(ss[1..])
  }

  // ---------------------------------------------------------------------------
  // Reference chunking

  /** The chunks of `s`: consecutive pieces of length `size`, the last one possibly shorter. */
  function Chunks<T>(s: seq<T>, size: nat): seq<seq<T>>
    requires size >= 1
    decreases |s|
  {
    if |s| == 0 then []
    else if |s| <= size then [s]
    else [s[..size]] + Chunks(s[size..], size)
  }

  lemma {:induction false} FlattenChunks<T>(s: seq<T>, size: nat)
    requires size >= 1
    ensures Flatten(Chunks(s, size)) == s
    decreases |s|
  {
    if |s| == 0 {
    } else if |s| <= size {
      assert Flatten([s]) == s + Flatten([]);
    } else {
      FlattenChunks(s[size..], size);
      assert Chunks(s, size)[1..] == Chunks(s[size..], size);
      assert s[..size] + s[size..] == s;
    }
  }

  /** Every chunk is non-empty and at most `size` long, and every chunk but the last is exactly `size` long. */
  lemma {:induction false} ChunkLengths<T>(s: seq<T>, size: nat)
    requires size >= 1
    ensures forall i :: 0 <= i < |Chunks(s, size)| ==> 1 <= |Chunks(s, size)[i]| <= size
    ensures forall i :: 0 <= i < |Chunks(s, size)| - 1 ==> |Chunks(s, size)[i]| == size
    decreases |s|
  {
    if |s| > size {
      ChunkLengths(s[size..], size);
      var c := Chunks(s, size);
      assert c == [s[..size]] + Chunks(s[size..], size);
      assert forall i :: 1 <= i < |c| ==> c[i] == Chunks(s[size..], size)[i - 1];
    }
  }

  lemma MulLe(a: int, b: int, d: int)
    requires a <= b && d > 0
    ensures a * d <= b * d
  {
  }

  /** Integer division is determined by the bracket q * d <= x < (q + 1) * d. */
  lemma DivUnique(x: int, d: int, q: int)
    requires d > 0 && q * d <= x < q * d + d
    ensures x / d == q
  {
    var q', r' := x / d, x % d;
    assert x == q' * d + r' && 0 <= r' < d;
    if q' < q {
      MulLe(q' + 1, q, d);
    } else if q < q' {
      MulLe(q + 1, q', d);
    }
  }

  /** There are ceil(|s| / size) chunks. */
  lemma {:induction false} ChunkCount<T>(s: seq<T>, size: nat)
    requires size >= 1
    ensures |Chunks(s, size)| == (|s| + size - 1) / size
    decreases |s|
  {
    if |s| == 0 {
      DivUnique(size - 1, size, 0);
    } else if |s| <= size {
      DivUnique(|s| + size - 1, size, 1);
    } else {
      ChunkCount(s[size..], size);
      var q := (|s| - size + size - 1) / size;
      assert q * size <= |s| - 1 < q * size + size;
      DivUnique(|s| + size - 1, size, q + 1);
    }
  }

  // ---------------------------------------------------------------------------
  // makeBatch

  /**
    The loop of `makeBatch(of:withSize:)` over the elements not yet visited: `done` holds the
    batches already closed, `open` the batch being filled. An element first closes the open
    batch if it already holds `size` elements, then joins the open batch; at the end a
    non-empty open batch is closed.
   */
  function MakeBatchLoop<T>(rest: seq<T>, size: int, done: seq<seq<T>>, open: seq<T>): seq<seq<T>>
    decreases |rest|
  {
    if |rest| == 0 then (if |open| > 0 then done + [open] else done)
    else if |open| == size then MakeBatchLoop(rest[1..], size, done + [open], [rest[0]])
    else MakeBatchLoop(rest[1..], size, done, open + [rest[0]])
  }

  /** With a positive size, the loop closes exactly the chunks of what is open and still to come. */
  lemma {:induction false} LoopIsChunking<T>(rest: seq<T>, size: nat, done: seq<seq<T>>, open: seq<T>)
    requires 1 <= |open| <= size
    ensures MakeBatchLoop(rest, size, done, open) == done + Chunks(open + rest, size)
    decreases |rest|
  {
    if |rest| == 0 {
      assert open + rest == open;
    } else if |open| == size {
      LoopIsChunking(rest[1..], size, done + [open], [rest[0]]);
      assert [rest[0]] + rest[1..] == rest;
      assert (open + rest)[..size] == open;
      assert (open + rest)[size..] == rest;
    } else {
      LoopIsChunking(rest[1..], size, done, open + [rest[0]]);
      assert open + [rest[0]] + rest[1..] == open + rest;
    }
  }

  /** With a size below 1 the open batch can never reach it, so everything left joins the open batch. */
  lemma {:induction false} LoopNeverCloses<T>(rest: seq<T>, size: int, done: seq<seq<T>>, open: seq<T>)
    requires size < 1 <= |open|
    ensures MakeBatchLoop(rest, size, done, open) == done + [open + rest]
    decreases |rest|
  {
    if |rest| == 0 {
      assert open + rest == open;
    } else {
      LoopNeverCloses(rest[1..], size, done, open + [rest[0]]);
      assert open + [rest[0]] + rest[1..] == open + rest;
    }
  }

  /**
    `makeBatch(of:withSize:)`. For size >= 1 it cuts `source` into its chunks. For size 0 the
    first element closes the empty open batch, so a non-empty source yields an empty batch
    followed by the whole source; a negative size yields the whole source as one batch.
   */
  function MakeBatch<T>(source: seq<T>, size: int): (batches: seq<seq<T>>)
    ensures size >= 1 ==> batches == Chunks(source, size)
    ensures |source| == 0 ==> batches == []
    ensures size == 0 && |source| > 0 ==> batches == [[], source]
    ensures size < 0 && |source| > 0 ==> batches == [source]
  {
    var batches := MakeBatchLoop(source, size, [], []);
    if |source| > 0 then
      var first, rest := [source[0]], source[1..];
      assert first + rest == source;
      var noElements: seq<T>, noBatches: seq<seq<T>> := [], [];
      assert noElements + first == first && noBatches + [noElements] == [[]];
      if size >= 1 then
        assert batches == MakeBatchLoop(rest, size, [], first);
        LoopIsChunking(rest, size, [], first);
        batches
      else if size == 0 then
        assert batches == MakeBatchLoop(rest, size, [[]], first);
        LoopNeverCloses(rest, size, [[]], first);
        batches
      else
        assert batches == MakeBatchLoop(rest, size, [], first);
        LoopNeverCloses(rest, size, [], first);
        batches
    else
      batches
  }

  /**
    The properties of batching with a positive size: the batches concatenate back to the
    source, each is non-empty and at most `size` long, all but the last are exactly `size`
    long, and there are ceil(|source| / size) of them.
   */
  lemma MakeBatchProperties<T>(source: seq<T>, size: int)
    requires size >= 1
    ensures Flatten(MakeBatch(source, size)) == source
    ensures forall i :: 0 <= i < |MakeBatch(source, size)| ==> 1 <= |MakeBatch(source, size)[i]| <= size
    ensures forall i :: 0 <= i < |MakeBatch(source, size)| - 1 ==> |MakeBatch(source, size)[i]| == size
    ensures |MakeBatch(source, size)| == (|source| + size - 1) / size
  {
    FlattenChunks(source, size);
    ChunkLengths(source, size);
    ChunkCount(source, size);
  }

  /** 23 elements in batches of 5 give batch lengths 5, 5, 5, 5, 3. */
  lemma MakeBatchExample(source: seq<int>)
    requires |source| == 23
    ensures |MakeBatch(source, 5)| == 5
    ensures |MakeBatch(source, 5)[3]| == 5 && |MakeBatch(source, 5)[4]| == 3
  {
    MakeBatchProperties(source, 5);
    var b := MakeBatch(source, 5);
    assert Chunks(source[20..], 5) == [source[20..]];
    assert Chunks(source[15..], 5) == [source[15..][..5]] + [source[20..]] by {
      assert source[15..][5..] == source[20..];
    }
    assert Chunks(source[10..], 5) == [source[10..][..5]] + Chunks(source[15..], 5) by {
      assert source[10..][5..] == source[15..];
    }
    assert Chunks(source[5..], 5) == [source[5..][..5]] + Chunks(source[10..], 5) by {
      assert source[5..][5..] == source[10..];
    }
    assert b == [source[..5]] + Chunks(source[5..], 5);
    assert b[4] == source[20..];
  }
}
