/** The chunk-wise comparison of two streams over reused buffers. */
module Compare {
  import opened Bytes
  import opened Readers

  const BUFFER := 512

  datatype Verdict = GoOn | Same | Different

  /** One round: the whole buffers are compared, stale tails included, and stay equal while the comparison goes on. */
  method CompareChunk(s: Reader, d: Reader, sbyte: array<byte>, dbyte: array<byte>) returns (v: Verdict)
    requires s != d && sbyte != dbyte && sbyte.Length == dbyte.Length && sbyte[..] == dbyte[..]
    requires forall c :: c in s.chunks ==> |c| <= sbyte.Length
    requires forall c :: c in d.chunks ==> |c| <= sbyte.Length
    modifies s`chunks, d`chunks, sbyte, dbyte
    ensures v == Same <==> old(s.chunks) == [] && old(d.chunks) == [] && !s.fails && !d.fails
    ensures v == GoOn <==> old(s.chunks) != [] && old(d.chunks) != [] && old(s.chunks)[0] == old(d.chunks)[0]
    ensures v == GoOn ==>
              s.chunks == old(s.chunks)[1..] && d.chunks == old(d.chunks)[1..] && sbyte[..] == dbyte[..]
  {
    ghost var before, sc, dc := sbyte[..], s.chunks, d.chunks;
    var sint, serr := s.Read(sbyte);
    var dint, derr := d.Read(dbyte);
    if serr != None || derr != None {
      return if serr == EOF && derr == EOF then Same else Different;
    }
    ChunksEqual(sc[0], dc[0], before);
    v := if sint == dint && sbyte[..] == dbyte[..] then GoOn else Different;
  }

  /**
   Compares two streams over two buffers of 512 bytes. The answer is yes exactly when both streams
   end without an error and were delivered in the same chunks; it is then never wrong.
   */
  method Comparebyte(s: Reader, d: Reader) returns (same: bool)
    requires s != d
    requires forall c :: c in s.chunks ==> |c| <= BUFFER
    requires forall c :: c in d.chunks ==> |c| <= BUFFER
    modifies s, d
    ensures same <==> old(s.chunks) == old(d.chunks) && !s.fails && !d.fails
    ensures same ==> Flatten(old(s.chunks)) == Flatten(old(d.chunks))
  {
    var sbyte := new byte[BUFFER](_ => 0);
    var dbyte := new byte[BUFFER](_ => 0);
    assert sbyte[..] == dbyte[..];
    while true
      invariant fresh(sbyte) && fresh(dbyte) && sbyte[..] == dbyte[..]
      invariant forall c :: c in s.chunks ==> |c| <= BUFFER
      invariant forall c :: c in d.chunks ==> |c| <= BUFFER
      invariant old(s.chunks) == old(d.chunks) <==> s.chunks == d.chunks
      decreases |s.chunks|
    {
      ghost var sc, dc := s.chunks, d.chunks;
      var v := CompareChunk(s, d, sbyte, dbyte);
      if v == Same {
        return true;
      }
      if v == Different {
        return false;
      }
      assert sc == [sc[0]] + s.chunks && dc == [dc[0]] + d.chunks;
    }
  }

  /** Over equal buffers, chunks of equal length are equal exactly when the overwritten buffers are. */
  lemma ChunksEqual(a: seq<byte>, b: seq<byte>, buf: seq<byte>)
    requires |a| <= |buf| && |b| <= |buf|
    ensures |a| == |b| && Over(a, buf) == Over(b, buf) <==> a == b
  {
    if |a| == |b| { assert Over(a, buf)[..|a|] == a && Over(b, buf)[..|b|] == b; }
  }

  /** A reader's chunks: none of them empty, none longer than the buffer, and together the stream. */
  ghost predicate ChunksOf(chunks: seq<seq<byte>>, data: seq<byte>) {
    Flatten(chunks) == data && forall i :: 0 <= i < |chunks| ==> 1 <= |chunks[i]| <= BUFFER
  }

  /** How a stream is cut up cannot matter exactly when it has at most one byte. */
  lemma ChunkingMattersIff(data: seq<byte>)
    ensures |data| <= 1 <==> forall s, d :: ChunksOf(s, data) && ChunksOf(d, data) ==> s == d
  {
    if |data| <= 1 {
      forall s, d | ChunksOf(s, data) && ChunksOf(d, data) ensures s == d {
        OnlyChunk(s, data);
        OnlyChunk(d, data);
      }
    } else {
      var s, d := FileChunks(data, BUFFER), FileChunks(data, 1);
      FileChunksTile(data, BUFFER);
      FileChunksTile(data, 1);
      assert ChunksOf(s, data) && ChunksOf(d, data);
      assert |d[0]| == 1 != |s[0]|;
    }
  }

  lemma OnlyChunk(chunks: seq<seq<byte>>, data: seq<byte>)
    requires ChunksOf(chunks, data) && |data| <= 1
    ensures chunks == if data == [] then [] else [data]
  {
    ChunkCount(chunks);
    if chunks != [] {
      assert chunks == [chunks[0]] && chunks[1..] == [];
      assert Flatten(chunks) == chunks[0];
    }
  }

  lemma {:induction false} ChunkCount(chunks: seq<seq<byte>>)
    requires forall i :: 0 <= i < |chunks| ==> chunks[i] != []
    ensures |chunks| <= |Flatten(chunks)|
  {
    if chunks != [] { ChunkCount(chunks[1..]); }
  }

  /** Two equal streams of two bytes or more, one with full reads and one byte by byte, are reported as different. */
  method CompareRechunked(data: seq<byte>) returns (same: bool)
    requires |data| >= 2
    ensures !same
  {
    var full, single := FileChunks(data, BUFFER), FileChunks(data, 1);
    assert |single[0]| == 1 != |full[0]|;
    var s := new Reader(full, false);
    var d := new Reader(single, false);
    same := Comparebyte(s, d);
  }

  /** For readers of equal chunk lengths the answer is exact. */
  lemma {:induction false} EqualLengthsExact(s: seq<seq<byte>>, d: seq<seq<byte>>)
    requires |s| == |d| && forall i :: 0 <= i < |s| ==> |s[i]| == |d[i]|
    ensures s == d <==> Flatten(s) == Flatten(d)
  {
    if s != [] && Flatten(s) == Flatten(d) {
      var n := |s[0]|;
      assert Flatten(s)[..n] == s[0] && Flatten(d)[..n] == d[0];
      assert Flatten(s)[n..] == Flatten(s[1..]) && Flatten(d)[n..] == Flatten(d[1..]);
      EqualLengthsExact(s[1..], d[1..]);
      assert s == [s[0]] + s[1..] && d == [d[0]] + d[1..];
    }
  }
}
