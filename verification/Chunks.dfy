/** Chunks of content, named by the digest of their bytes, and where a list of pieces is cut. */
module Chunks {
  import opened Bytes
  import opened Collections
  import opened Hashing

  datatype Chunk = Chunk(cid: Digest, data: seq<byte>)

  function ContentInput(data: seq<byte>): seq<byte>
  {
    Ascii("BDLM_CONTENT_V1") + Le(|data|, 8) + data
  }

  function ContentId(h: Hash, data: seq<byte>): Digest
  {
    h(ContentInput(data))
  }

  function Named(h: Hash, data: seq<byte>): Chunk
  {
    Chunk(ContentId(h, data), data)
  }

  ghost predicate WellNamed(h: Hash, chunks: seq<Chunk>)
  {
    forall i :: 0 <= i < |chunks| ==> chunks[i].cid == ContentId(h, chunks[i].data)
  }

  function DataOf(chunks: seq<Chunk>): (r: seq<seq<byte>>)
    ensures |r| == |chunks|
  {
    seq(|chunks|, i requires 0 <= i < |chunks| => chunks[i].data)
  }

  /** The data of the chunks, end to end. */
  function Joined(chunks: seq<Chunk>): seq<byte>
  {
    Concat(DataOf(chunks))
  }

  lemma JoinedMore(chunks: seq<Chunk>, c: Chunk)
    ensures Joined(chunks + [c]) == Joined(chunks) + c.data
  {
    hide Concat;
    ConcatMore(DataOf(chunks), c.data);
    assert DataOf(chunks + [c]) == DataOf(chunks) + [c.data];
  }

  lemma NothingJoined()
    ensures Joined([]) == []
  {}

  /** The positions where chunks end. */
  ghost function Ends(chunks: seq<Chunk>): set<nat>
  {
    if chunks == [] then {} else Ends(chunks[..|chunks| - 1]) + {|Joined(chunks)|}
  }

  lemma EndsMore(chunks: seq<Chunk>, c: Chunk)
    ensures Ends(chunks + [c]) == Ends(chunks) + {|Joined(chunks)| + |c.data|}
  {
    hide Joined;
    JoinedMore(chunks, c);
    var all := chunks + [c];
    assert all[..|all| - 1] == chunks;
    assert Ends(all) == Ends(chunks) + {|Joined(all)|};
  }

  method Join(chunks: seq<Chunk>) returns (out: seq<byte>)
    ensures out == Joined(chunks)
  {
    out := [];
    for i := 0 to |chunks|
      invariant out == Joined(chunks[..i])
    {
      JoinedMore(chunks[..i], chunks[i]);
      assert chunks[..i] + [chunks[i]] == chunks[..i + 1];
      out := out + chunks[i].data;
    }
    assert chunks[..|chunks|] == chunks;
  }
}
