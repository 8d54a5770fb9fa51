/**
 * The chunked reader: `toChunkedFunc` wraps a byte payload in a pull
 * function that owns a `bytes.Reader` cursor and one reused buffer of
 * `chunkSizeBytes` bytes. Each pull copies the next bytes into that buffer
 * and hands back a slice of it; at the end it reports EOF.
 *
 * The closure and its captured state become the class `ChunkStream`: the
 * payload and the buffer are constants of the stream, the reader's cursor is
 * its only mutable field, and the buffer's contents change on every pull.
 */
module Chunked {
  import opened GoInt

  newtype byte = x: int | 0 <= x < 256

  /** Size of the buffer every pull reads into (1 MiB). */
  const ChunkSizeBytes: nat := 1 * 1024 * 1024

  function Min(a: nat, b: nat): nat
  {
    if a <= b then a else b
  }

  /** Number of pieces of size at most `c` that cover `l` bytes: `ceil(l / c)`. */
  function CeilDiv(l: nat, c: nat): nat
    requires c > 0
  {
    (l + c - 1) / c
  }

  /**
   * The chunks a stream over `d` yields, in order: each one is the next
   * `min(c, remaining)` bytes.
   */
  function Chunks(d: seq<byte>, c: nat): seq<seq<byte>>
    requires c > 0
    decreases |d|
  {
    if |d| == 0 then []
    else
      var n := Min(c, |d|);
      [d[..n]] + Chunks(d[n..], c)
  }

  /** What a consumer gets by appending the chunks it pulled. */
  function Concat(cs: seq<seq<byte>>): seq<byte>
  {
    if cs == [] then [] else cs[0] + Concat(cs[1..])
  }

  /** The result of one pull: a view of the first `len` bytes of `buf`, or EOF with a nil slice. */
  datatype Pulled = Chunk(buf: array<byte>, len: nat) | Eof

  /** A stream yields nothing exactly when its payload is empty. */
  lemma ChunksEmpty(d: seq<byte>, c: nat)
    requires c > 0
    ensures Chunks(d, c) == [] <==> |d| == 0
  {
  }

  /** `ceil` steps down by one when a full chunk is taken off. */
  lemma CeilDivStep(l: nat, c: nat)
    requires c > 0 && l > 0
    ensures CeilDiv(l, c) == CeilDiv(l - Min(c, l), c) + 1
  {
    if l <= c {
      DivUnique(l + c - 1, c, 1, l - 1);
      DivUnique(c - 1, c, 0, c - 1);
    } else {
      var q, m := (l - 1) / c, (l - 1) % c;
      DivUnique(l + c - 1, c, q + 1, m);
      DivUnique(l - 1, c, q, m);
    }
  }

  /** A payload of length `L` is delivered in exactly `ceil(L / c)` chunks. */
  lemma {:induction false} ChunkCount(d: seq<byte>, c: nat)
    requires c > 0
    ensures |Chunks(d, c)| == CeilDiv(|d|, c)
    decreases |d|
  {
    if |d| == 0 {
      DivUnique(c - 1, c, 0, c - 1);
    } else {
      var n := Min(c, |d|);
      ChunkCount(d[n..], c);
      CeilDivStep(|d|, c);
    }
  }

  /** Appending the chunks gives back the payload byte for byte. */
  lemma {:induction false} ChunksConcat(d: seq<byte>, c: nat)
    requires c > 0
    ensures Concat(Chunks(d, c)) == d
    decreases |d|
  {
    if |d| > 0 {
      var n := Min(c, |d|);
      ChunksConcat(d[n..], c);
      assert Chunks(d, c)[1..] == Chunks(d[n..], c);
      assert d[..n] + d[n..] == d;
    }
  }

  /**
   * Every chunk is non-empty and holds at most `c` bytes; every chunk but the
   * last is full.
   */
  lemma {:induction false} ChunkSizes(d: seq<byte>, c: nat)
    requires c > 0
    ensures forall i :: 0 <= i < |Chunks(d, c)| ==> 0 < |Chunks(d, c)[i]| <= c
    ensures forall i :: 0 <= i < |Chunks(d, c)| - 1 ==> |Chunks(d, c)[i]| == c
    decreases |d|
  {
    if |d| > 0 {
      var n := Min(c, |d|);
      ChunkSizes(d[n..], c);
      var cs := Chunks(d, c);
      assert cs[1..] == Chunks(d[n..], c);
      forall i | 0 < i < |cs|
        ensures cs[i] == Chunks(d[n..], c)[i - 1]
      {
      }
      if n < c {
        assert Chunks(d[n..], c) == [];
      }
    }
  }

  /** A 2,500,000-byte payload is delivered as 1 MiB, 1 MiB and 402,848 bytes. */
  lemma LargePayloadChunks(d: seq<byte>)
    requires |d| == 2500000
    ensures |Chunks(d, ChunkSizeBytes)| == 3
    ensures |Chunks(d, ChunkSizeBytes)[0]| == 1048576
    ensures |Chunks(d, ChunkSizeBytes)[1]| == 1048576
    ensures |Chunks(d, ChunkSizeBytes)[2]| == 402848
  {
    var c := ChunkSizeBytes;
    var d1 := d[1048576..];
    var d2 := d1[1048576..];
    assert |d2| == 402848;
    assert d2[..402848] == d2;
    assert Chunks(d2[402848..], c) == [];
    assert Chunks(d2, c) == [d2];
    assert Chunks(d1, c) == [d1[..1048576]] + Chunks(d2, c);
    assert Chunks(d, c) == [d[..1048576]] + Chunks(d1, c);
  }

  class ChunkStream {
    /** The payload the stream was opened on; a stream never changes it. */
    const data: seq<byte>
    /** The one buffer every successful pull returns a view of. */
    const chunk: array<byte>
    /** The `bytes.Reader` read offset into `data`. */
    var cursor: nat

    ghost predicate Valid()
      reads this
    {
      chunk.Length == ChunkSizeBytes && cursor <= |data|
    }

    /** The chunks that the remaining pulls will deliver, in order. */
    ghost function Remaining(): seq<seq<byte>>
      reads this
      requires Valid()
    {
      Chunks(data[cursor..], ChunkSizeBytes)
    }

    /** `toChunkedFunc(b)`: a fresh buffer and a reader at offset 0. */
    constructor (b: seq<byte>)
      ensures Valid() && fresh(chunk)
      ensures data == b && cursor == 0
      ensures Remaining() == Chunks(b, ChunkSizeBytes)
    {
      data := b;
      chunk := new byte[ChunkSizeBytes];
      cursor := 0;
    }

    /**
     * `bytes.Reader.Read(b)`: at the end it reports EOF and reads nothing;
     * otherwise it copies `min(len(b), remaining)` bytes into the front of `b`,
     * leaves the rest of `b` alone and advances the cursor by that count.
     */
    method Read(b: array<byte>) returns (n: nat, eof: bool)
      requires cursor <= |data|
      modifies this`cursor, b
      ensures eof <==> old(cursor) == |data|
      ensures n == if eof then 0 else Min(b.Length, |data| - old(cursor))
      ensures cursor == old(cursor) + n <= |data|
      ensures b[..n] == data[old(cursor)..cursor]
      ensures b[n..] == old(b[n..])
    {
      if cursor >= |data| {
        return 0, true;
      }
      var start := cursor;
      n := Min(b.Length, |data| - start);
      var i := 0;
      while i < n
        invariant 0 <= i <= n
        invariant forall k :: 0 <= k < i ==> b[k] == data[start + k]
        invariant forall k :: i <= k < b.Length ==> b[k] == old(b[k])
      {
        b[i] := data[start + i];
        i := i + 1;
      }
      cursor := start + n;
      eof := false;
    }

    /**
     * One call of the pull function. A successful pull returns a view of the
     * shared buffer `chunk` holding the next `min(1 MiB, remaining)` bytes,
     * so the next pull overwrites what an earlier one returned; at the end it
     * returns EOF, leaves the cursor where it is, and keeps doing so.
     */
    method Pull() returns (r: Pulled)
      requires Valid()
      modifies this`cursor, chunk
      ensures Valid()
      ensures old(cursor) == |data| ==> r == Eof && cursor == old(cursor)
      ensures old(cursor) < |data| ==>
        r == Chunk(chunk, Min(ChunkSizeBytes, |data| - old(cursor))) &&
        cursor == old(cursor) + r.len &&
        chunk[..r.len] == data[old(cursor)..cursor]
      ensures old(Remaining()) == [] ==> r == Eof && Remaining() == []
      ensures old(Remaining()) != [] ==>
        r.Chunk? && chunk[..r.len] == old(Remaining())[0] && Remaining() == old(Remaining())[1..]
      ensures r.Eof? ==> chunk[..] == old(chunk[..])
      ensures r.Chunk? ==> chunk[r.len..] == old(chunk[r.len..])
    {
      ghost var rest := data[cursor..];
      var n, eof := Read(chunk);
      if eof {
        return Eof;
      }
      assert rest[..n] == data[old(cursor)..cursor];
      assert rest[n..] == data[cursor..];
      r := Chunk(chunk, n);
    }
  }
}
