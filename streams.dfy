/**
 * The io.Reader and io.Writer the message codec works on, and the package's
 * read/write helpers for counts and inventory vectors over them.
 * A reader is an input byte sequence with a cursor; a writer is an output
 * byte sequence that is appended to, with a capacity past which writes are
 * refused, standing for a transport that can fail.
 */
module Streams {
  import opened Wire

  class Reader {
    const data: seq<byte>
    var pos: nat

    ghost predicate Valid()
      reads this
    {
      pos <= |data|
    }

    constructor (input: seq<byte>)
      ensures data == input && pos == 0 && Valid()
    {
      data := input;
      pos := 0;
    }
  }

  class Writer {
    var bytes: seq<byte>
    const limit: nat

    constructor (capacity: nat)
      ensures bytes == [] && limit == capacity
    {
      bytes := [];
      limit := capacity;
    }

    /** A write appends the whole chunk, or fails and appends nothing. */
    method Write(chunk: seq<byte>) returns (err: Option<Error>)
      modifies this
      ensures err == None <==> |old(bytes)| + |chunk| <= limit
      ensures err == None ==> bytes == old(bytes) + chunk
      ensures err != None ==> err == Some(WriteFailed) && bytes == old(bytes)
    {
      if |bytes| + |chunk| <= limit {
        bytes := bytes + chunk;
        err := None;
      } else {
        err := Some(WriteFailed);
      }
    }
  }

  /** readVarInt(r, pver); the protocol version does not change the encoding. */
  method ReadVarInt(r: Reader, pver: uint32) returns (v: Result<uint64>)
    requires r.Valid()
    modifies r
    ensures r.Valid()
    ensures ParseVarInt(r.data, old(r.pos)) == Step(v, r.pos)
  {
    var s := ParseVarInt(r.data, r.pos);
    v, r.pos := s.res, s.pos;
  }

  /** readInvVect(r, pver, &iv). */
  method ReadInvVect(r: Reader, pver: uint32) returns (v: Result<InvVect>)
    requires r.Valid()
    modifies r
    ensures r.Valid()
    ensures ParseInvVect(r.data, old(r.pos)) == Step(v, r.pos)
  {
    var s := ParseInvVect(r.data, r.pos);
    v, r.pos := s.res, s.pos;
  }

  /** writeVarInt(w, pver, val). */
  method WriteVarInt(w: Writer, pver: uint32, val: uint64) returns (err: Option<Error>)
    modifies w
    ensures err == None <==> |old(w.bytes)| + |EncodeVarInt(val)| <= w.limit
    ensures err == None ==> w.bytes == old(w.bytes) + EncodeVarInt(val)
    ensures err != None ==> err == Some(WriteFailed) && w.bytes == old(w.bytes)
  {
    err := w.Write(EncodeVarInt(val));
  }

  /** writeInvVect(w, pver, iv). */
  method WriteInvVect(w: Writer, pver: uint32, iv: InvVect) returns (err: Option<Error>)
    modifies w
    ensures err == None <==> |old(w.bytes)| + MaxInvVectPayload <= w.limit
    ensures err == None ==> w.bytes == old(w.bytes) + EncodeInvVect(iv)
    ensures err != None ==> err == Some(WriteFailed) && w.bytes == old(w.bytes)
  {
    err := w.Write(EncodeInvVect(iv));
  }
}
