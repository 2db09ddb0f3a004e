/** Streams that deliver their bytes in chunks, as Go's io.Reader does. */
module Readers {
  import opened Bytes

  datatype ReadErr = None | EOF | Failed

  class Reader {
    var chunks: seq<seq<byte>>  // what the coming reads return
    const fails: bool           // whether the read after the last chunk fails instead of reporting EOF

    constructor (chunks: seq<seq<byte>>, fails: bool)
      ensures this.chunks == chunks && this.fails == fails
    {
      this.chunks, this.fails := chunks, fails;
    }

    /** Delivers the next chunk into the front of `p` and leaves the rest of `p` as it was. */
    method Read(p: array<byte>) returns (n: nat, err: ReadErr)
      requires forall c :: c in chunks ==> |c| <= p.Length
      modifies this`chunks, p
      ensures old(chunks) == [] ==>
                n == 0 && err == (if fails then Failed else EOF) && chunks == [] && p[..] == old(p[..])
      ensures old(chunks) != [] ==>
                && n == |old(chunks)[0]| && err == None && chunks == old(chunks)[1..]
                && p[..] == Over(old(chunks)[0], old(p[..]))
    {
      if chunks == [] {
        return 0, if fails then Failed else EOF;
      }
      var c := chunks[0];
      forall i | 0 <= i < |c| { p[i] := c[i]; }
      n, err, chunks := |c|, None, chunks[1..];
    }
  }

  /** A buffer whose front is overwritten by `c`; its tail is stale. */
  function Over(c: seq<byte>, buf: seq<byte>): (r: seq<byte>)
    ensures |c| <= |buf| ==> |r| == |buf|
  {
    if |c| <= |buf| then c + buf[|c|..] else c
  }

  /** The chunks of a regular file, every read but the last one full. */
  function FileChunks(data: seq<byte>, size: nat): (r: seq<seq<byte>>)
    requires size >= 1
    ensures forall i :: 0 <= i < |r| ==> 1 <= |r[i]| <= size
    ensures r == [] <==> data == []
  {
    if data == [] then []
    else [data[..Min(size, |data|)]] + FileChunks(data[Min(size, |data|)..], size)
  }

  lemma {:induction false} FileChunksTile(data: seq<byte>, size: nat)
    requires size >= 1
    ensures Flatten(FileChunks(data, size)) == data
  {
    if data != [] {
      FileChunksTile(data[Min(size, |data|)..], size);
    }
  }
}
