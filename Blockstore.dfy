/** The content-addressed block store the chat repository writes to, seen
    only through `get(cid)` and `put(bytes, codec)`: a map from CID to block
    bytes in which every block sits under the CID of its own bytes. */
module Blockstore {

  import opened Wrappers
  import opened Bytes

  /** The codec tag of a CID; the chat repository stores raw blocks. */
  datatype Codec = Raw

  /** A content identifier: a codec tag and the digest of the block. */
  datatype Cid = Cid(codec: Codec, digest: seq<byte>)

  /** The digest of a block. It stands for the multihash: the identity
      digest is injective, so two different blocks never share a CID. */
  function Digest(data: seq<byte>): seq<byte>
  {
    data
  }

  /** The CID `put` gives a block: fixed by the bytes and the codec alone,
      and different for different bytes. */
  function ContentId(data: seq<byte>, codec: Codec): Cid
  {
    Cid(codec, Digest(data))
  }

  /** Every block is stored under the CID of its own bytes. */
  ghost predicate ContentAddressed(blocks: map<Cid, seq<byte>>) {
    forall cid | cid in blocks :: cid == ContentId(blocks[cid], cid.codec)
  }

  /** Putting a block that is already stored changes nothing. */
  lemma PutIdempotent(blocks: map<Cid, seq<byte>>, data: seq<byte>, codec: Codec)
    requires ContentAddressed(blocks)
    requires ContentId(data, codec) in blocks
    ensures blocks[ContentId(data, codec) := data] == blocks
  {
    var cid := ContentId(data, codec);
    assert cid == ContentId(blocks[cid], codec);
    assert blocks[cid] == data;
  }

  class Blockstore {

    var blocks: map<Cid, seq<byte>>

    ghost predicate Valid()
      reads this
    {
      ContentAddressed(blocks)
    }

    constructor ()
      ensures Valid() && blocks == map[]
    {
      blocks := map[];
    }

    /** `get(cid)`: the stored bytes, or nothing on a miss. */
    function Get(cid: Cid): (r: Option<seq<byte>>)
      reads this
      ensures r.Some? <==> cid in blocks
      ensures r.Some? ==> r.value == blocks[cid]
    {
      if cid in blocks then Some(blocks[cid]) else None
    }

    /** `put(bytes, codec)`: store the block under its content address and
      return that address; no other entry changes, and a `get` of the
      returned CID gives the block back. */
    method Put(data: seq<byte>, codec: Codec) returns (cid: Cid)
      requires Valid()
      modifies this
      ensures Valid()
      ensures cid == ContentId(data, codec)
      ensures blocks == old(blocks)[cid := data]
      ensures Get(cid) == Some(data)
    {
      cid := ContentId(data, codec);
      blocks := blocks[cid := data];
    }
  }
}
