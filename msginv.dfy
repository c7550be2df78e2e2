/**
 * The bitcoin inv message: a list of inventory vectors, bounded by
 * MaxInvPerMsg, with its decoder, encoder and the constants of the message
 * contract.  The functions Appended, AppendAll, DecodeRecords, Decode and
 * EncodeMsg describe what the methods of MsgInv do; the lemmas state the
 * properties of the message in terms of them.
 */
module Inv {
  import opened Wire
  import Streams

  /** Maximum number of inventory vectors in one message. */
  const MaxInvPerMsg: nat := 50000
  /** The command string identifying the message. */
  const CmdInv: string := "inv"
  /** Width of the command field of a message header. */
  const CommandSize: nat := 12

  function Min(a: nat, b: nat): nat { if a <= b then a else b }

  /** Free places left under the bound (none for a list already over it). */
  function Room(list: seq<InvVect>): nat
  {
    if |list| >= MaxInvPerMsg then 0 else MaxInvPerMsg - |list|
  }

  // ---------------------------------------------------------------------
  // The list as AddInvVect leaves it

  /** InvList after AddInvVect(iv): iv is appended only while there is room. */
  function Appended(list: seq<InvVect>, iv: InvVect): (r: seq<InvVect>)
    ensures list <= r && |r| == |list| + Min(1, Room(list))
    ensures |r| > |list| ==> r[|list|] == iv
    ensures |list| <= MaxInvPerMsg ==> |r| <= MaxInvPerMsg
  {
    if |list| + 1 > MaxInvPerMsg then list else list + [iv]
  }

  /** InvList after AddInvVect on each of ivs in turn, its errors ignored. */
  function AppendAll(list: seq<InvVect>, ivs: seq<InvVect>): (r: seq<InvVect>)
    ensures list <= r && |r| <= |list| + |ivs|
    ensures |list| <= MaxInvPerMsg ==> |r| <= MaxInvPerMsg
    decreases |ivs|
  {
    if ivs == [] then list else AppendAll(Appended(list, ivs[0]), ivs[1..])
  }

  /** Adding several vectors keeps the old list and takes as many of the new
      ones, in order, as there is room for; the rest are dropped. */
  lemma {:induction false} AppendAllTakesRoom(list: seq<InvVect>, ivs: seq<InvVect>)
    ensures AppendAll(list, ivs) == list + ivs[..Min(|ivs|, Room(list))]
    decreases |ivs|
  {
    if ivs != [] {
      var next := Appended(list, ivs[0]);
      AppendAllTakesRoom(next, ivs[1..]);
      if |list| < MaxInvPerMsg {
        TakeRoomStep(list, ivs);
      } else {
        assert ivs[..0] == [] && ivs[1..][..0] == [];
      }
    }
  }

  /** One step of the closed form: with room left, the first vector is taken
      and the room shrinks by one. */
  lemma TakeRoomStep(list: seq<InvVect>, ivs: seq<InvVect>)
    requires ivs != [] && |list| < MaxInvPerMsg
    ensures list + ivs[..Min(|ivs|, Room(list))]
         == (list + [ivs[0]]) + ivs[1..][..Min(|ivs| - 1, Room(list + [ivs[0]]))]
  {
    var k := Min(|ivs|, Room(list));
    assert ivs[..k] == [ivs[0]] + ivs[1..][..k - 1];
  }

  /** Hence adding never pushes a list over the bound, and adds every vector
      when there is room for all of them. */
  lemma AppendAllBounded(list: seq<InvVect>, ivs: seq<InvVect>)
    ensures |list| <= MaxInvPerMsg ==> |AppendAll(list, ivs)| <= MaxInvPerMsg
    ensures |list| + |ivs| <= MaxInvPerMsg ==> AppendAll(list, ivs) == list + ivs
    ensures |list| >= MaxInvPerMsg ==> AppendAll(list, ivs) == list
  {
    AppendAllTakesRoom(list, ivs);
  }

  // ---------------------------------------------------------------------
  // Decoding

  /** The state BtcDecode leaves: the receiver's list, the reader's cursor and
      the error returned (None for nil). */
  datatype Decoded = Decoded(list: seq<InvVect>, pos: nat, err: Option<Error>)

  /** The loop of BtcDecode: k more records read at pos, each handed to
      AddInvVect; the first failing read ends it with that read's error. */
  function DecodeRecords(data: seq<byte>, pos: nat, list: seq<InvVect>, k: nat): (d: Decoded)
    requires pos <= |data|
    ensures pos <= d.pos <= |data|
    ensures list <= d.list
    ensures |list| <= MaxInvPerMsg ==> |d.list| <= MaxInvPerMsg
    decreases k
  {
    if k == 0 then Decoded(list, pos, None)
    else
      var s := ParseInvVect(data, pos);
      match s.res
      case Fail(e) => Decoded(list, s.pos, Some(e))
      case Ok(iv) => DecodeRecords(data, s.pos, Appended(list, iv), k - 1)
  }

  /** BtcDecode: the count, its bound check, then the records. */
  function Decode(data: seq<byte>, pos: nat, list: seq<InvVect>): (d: Decoded)
    requires pos <= |data|
    ensures pos <= d.pos <= |data|
  {
    var c := ParseVarInt(data, pos);
    match c.res
    case Fail(e) => Decoded(list, c.pos, Some(e))
    case Ok(count) =>
      if count > MaxInvPerMsg then Decoded(list, c.pos, Some(MessageError("MsgInv.BtcDecode", count)))
      else DecodeRecords(data, c.pos, list, count)
  }

  /** The k records stored one after another from pos. */
  function RecordsAt(data: seq<byte>, pos: nat, k: nat): (ivs: seq<InvVect>)
    requires pos + k * MaxInvVectPayload <= |data|
    ensures |ivs| == k
    decreases k
  {
    if k == 0 then []
    else [ParseInvVect(data, pos).res.value] + RecordsAt(data, pos + MaxInvVectPayload, k - 1)
  }

  /** All k records are present: every one is read and added, and the cursor
      ends right after the last. */
  lemma {:induction false} DecodeRecordsComplete(data: seq<byte>, pos: nat, list: seq<InvVect>, k: nat)
    requires pos + k * MaxInvVectPayload <= |data|
    ensures DecodeRecords(data, pos, list, k)
         == Decoded(AppendAll(list, RecordsAt(data, pos, k)), pos + k * MaxInvVectPayload, None)
    decreases k
  {
    if k > 0 {
      var iv := ParseInvVect(data, pos).res.value;
      DecodeRecordsComplete(data, pos + MaxInvVectPayload, Appended(list, iv), k - 1);
      assert RecordsAt(data, pos, k)[1..] == RecordsAt(data, pos + MaxInvVectPayload, k - 1);
    }
  }

  /** The stream ends inside record m (counting from 0) of k: the m records
      before it stay added, the stream is drained, and the error is that of
      the failing read.  Nothing is rolled back. */
  lemma {:induction false} DecodeRecordsTruncated(data: seq<byte>, pos: nat, list: seq<InvVect>, k: nat, m: nat)
    requires m < k
    requires pos + m * MaxInvVectPayload <= |data| < pos + (m + 1) * MaxInvVectPayload
    ensures var d := DecodeRecords(data, pos, list, k);
            && d.list == AppendAll(list, RecordsAt(data, pos, m))
            && d.pos == |data|
            && d.err.Some?
            && ParseInvVect(data, pos + m * MaxInvVectPayload) == Step(Fail(d.err.value), |data|)
    decreases m
  {
    if m > 0 {
      var iv := ParseInvVect(data, pos).res.value;
      DecodeRecordsTruncated(data, pos + MaxInvVectPayload, Appended(list, iv), k - 1, m - 1);
      assert RecordsAt(data, pos, m)[1..] == RecordsAt(data, pos + MaxInvVectPayload, m - 1);
    }
  }

  /** Decoding never shrinks or rewrites the receiver's list and never pushes
      it over the bound, whatever the stream holds. */
  lemma DecodeExtendsReceiver(data: seq<byte>, pos: nat, list: seq<InvVect>)
    requires pos <= |data|
    ensures list <= Decode(data, pos, list).list
    ensures |list| <= MaxInvPerMsg ==> |Decode(data, pos, list).list| <= MaxInvPerMsg
  {
  }

  /** Whatever encoding the peer chose for the count, a count over the bound
      is rejected right after it is read, with the list unchanged. */
  lemma DecodeRejectsOversized(data: seq<byte>, pos: nat, list: seq<InvVect>)
    requires pos <= |data|
    requires ParseVarInt(data, pos).res.Ok? && ParseVarInt(data, pos).res.value > MaxInvPerMsg
    ensures Decode(data, pos, list)
         == Decoded(list, ParseVarInt(data, pos).pos,
                    Some(MessageError("MsgInv.BtcDecode", ParseVarInt(data, pos).res.value)))
  {
  }

  /** A count that cannot be read ends decoding with the read's error, the
      cursor where the read left it and the list unchanged. */
  lemma DecodeCountFails(data: seq<byte>, pos: nat, list: seq<InvVect>)
    requires pos <= |data|
    requires ParseVarInt(data, pos).res.Fail?
    ensures Decode(data, pos, list)
         == Decoded(list, ParseVarInt(data, pos).pos, Some(ParseVarInt(data, pos).res.err))
  {
  }

  /** A count over the bound is rejected as soon as it is read: the cursor
      stops right after it, no record byte is touched, the list is unchanged. */
  lemma DecodeRejectsOversizedCount(p: seq<byte>, count: uint64, rest: seq<byte>, list: seq<InvVect>)
    requires count > MaxInvPerMsg
    ensures Decode(p + EncodeVarInt(count) + rest, |p|, list)
         == Decoded(list, |p| + |EncodeVarInt(count)|, Some(MessageError("MsgInv.BtcDecode", count)))
  {
    VarIntRoundTrip(p, count, rest);
    DecodeRejectsOversized(p + EncodeVarInt(count) + rest, |p|, list);
  }

  /** The stream ends inside the count: the read's error is returned, the
      stream is drained and the list is unchanged. */
  lemma DecodeTruncatedCount(p: seq<byte>, count: uint64, j: nat, list: seq<InvVect>)
    requires j < |EncodeVarInt(count)|
    ensures Decode(p + EncodeVarInt(count)[..j], |p|, list)
         == Decoded(list, |p| + j, Some(if j <= 1 then EOF else UnexpectedEOF))
  {
    VarIntTruncated(p, count, j);
    DecodeCountFails(p + EncodeVarInt(count)[..j], |p|, list);
  }

  /** The stream holds the count of list but only its first m records and a
      partial one (tail): decoding into a fresh message fails and leaves those
      m records in the list. */
  lemma DecodeTruncatedStream(p: seq<byte>, list: seq<InvVect>, m: nat, tail: seq<byte>)
    requires m < |list| <= MaxInvPerMsg
    requires |tail| < MaxInvVectPayload
    ensures var data := p + EncodeVarInt(|list|) + EncodeRecords(list[..m]) + tail;
            (Decode(data, |p|, [])
             == Decoded(list[..m], |data|, Some(if |tail| == 0 || |tail| == 4 then EOF else UnexpectedEOF)))
  {
    var count := EncodeVarInt(|list|);
    var kept := list[..m];
    var records := EncodeRecords(kept);
    var data := p + count + records + tail;
    var start := |p| + |count|;
    VarIntRoundTrip(p, |list|, records + tail);
    // Regroupings of data that match the lemmas' forms; they keep the proof
    // small and stable for the solver.
    assert p + count + (records + tail) == data;
    assert data == (p + count) + records + tail;
    RecordsAtEncoded(p + count, kept, tail);
    DecodeCutShort(data, |p|, start, list, m);
  }

  /** A stream holding a count within the bound but ending inside record m,
      decoded into an empty list. */
  lemma DecodeCutShort(data: seq<byte>, pos: nat, start: nat, list: seq<InvVect>, m: nat)
    requires pos <= |data|
    requires m < |list| <= MaxInvPerMsg
    requires ParseVarInt(data, pos) == Step(Ok(|list|), start)
    requires start + m * MaxInvVectPayload <= |data| < start + m * MaxInvVectPayload + MaxInvVectPayload
    requires RecordsAt(data, start, m) == list[..m]
    ensures var left := |data| - start - m * MaxInvVectPayload;
            Decode(data, pos, []) == Decoded(list[..m], |data|, Some(if left == 0 || left == 4 then EOF else UnexpectedEOF))
  {
    DecodeRecordsTruncated(data, start, [], |list|, m);
    AppendAllBounded([], list[..m]);
    ParseInvVectTruncated(data, start + m * MaxInvVectPayload);
  }

  // ---------------------------------------------------------------------
  // Encoding

  /** The records of list, in order. */
  function EncodeRecords(list: seq<InvVect>): (r: seq<byte>)
    ensures |r| == |list| * MaxInvVectPayload
  {
    if list == [] then [] else EncodeInvVect(list[0]) + EncodeRecords(list[1..])
  }

  /** The payload of an inv message: the count, then the records. */
  function EncodeMsg(list: seq<InvVect>): (r: seq<byte>)
    requires |list| <= MaxInvPerMsg
    ensures |list| < 0xfd ==> |r| == 1 + |list| * MaxInvVectPayload && r[0] == |list|
    ensures |list| >= 0xfd ==> |r| == 3 + |list| * MaxInvVectPayload && r[0] == 0xfd
    ensures |r| <= MaxVarIntPayload + MaxInvPerMsg * MaxInvVectPayload
  {
    EncodeVarInt(|list|) + EncodeRecords(list)
  }

  lemma {:induction false} EncodeRecordsAppend(a: seq<InvVect>, b: seq<InvVect>)
    ensures EncodeRecords(a + b) == EncodeRecords(a) + EncodeRecords(b)
    decreases |a|
  {
    if a != [] {
      assert (a + b)[0] == a[0];
      assert (a + b)[1..] == a[1..] + b;
      EncodeRecordsAppend(a[1..], b);
      calc {
        EncodeRecords(a + b);
        EncodeInvVect(a[0]) + EncodeRecords(a[1..] + b);
        EncodeInvVect(a[0]) + (EncodeRecords(a[1..]) + EncodeRecords(b));
        (EncodeInvVect(a[0]) + EncodeRecords(a[1..])) + EncodeRecords(b);
      }
    } else {
      assert a + b == b;
    }
  }

  /** Writing record i after the first i extends the encoding of the first i. */
  lemma EncodeRecordsSnoc(list: seq<InvVect>, i: nat)
    requires i < |list|
    ensures EncodeRecords(list[..i]) + EncodeInvVect(list[i]) == EncodeRecords(list[..i + 1])
  {
    var done, next := list[..i], list[..i + 1];
    assert next == done + [list[i]];
    EncodeRecordsAppend(done, [list[i]]);
    assert EncodeRecords([list[i]]) == EncodeInvVect(list[i]) + EncodeRecords([]);
  }

  /** The encoding of the first n records is a prefix of the whole encoding. */
  lemma EncodeRecordsPrefix(list: seq<InvVect>, n: nat)
    requires n <= |list|
    ensures EncodeRecords(list[..n]) <= EncodeRecords(list)
  {
    var done, later := list[..n], list[n..];
    assert done + later == list;
    EncodeRecordsAppend(done, later);
  }

  /** Stopping before record i leaves a proper prefix of the message, with
      room for at least that record still missing. */
  lemma EncodeStopsInside(before: seq<byte>, list: seq<InvVect>, i: nat)
    requires i < |list| <= MaxInvPerMsg
    ensures before + EncodeVarInt(|list|) + EncodeRecords(list[..i]) <= before + EncodeMsg(list)
    ensures |before + EncodeVarInt(|list|) + EncodeRecords(list[..i])| + MaxInvVectPayload
         <= |before + EncodeMsg(list)|
  {
    var count := EncodeVarInt(|list|);
    EncodeRecordsSnoc(list, i);
    EncodeRecordsPrefix(list, i + 1);
    EncodeRecordsPrefix(list, i);
    var done := EncodeRecords(list[..i]);
    var all := EncodeRecords(list);
    assert before + count + done == (before + count) + all[..|done|];
    assert before + EncodeMsg(list) == (before + count) + all;
  }

  /** The records read back from an encoding are the records encoded. */
  lemma {:induction false} RecordsAtEncoded(p: seq<byte>, list: seq<InvVect>, rest: seq<byte>)
    ensures |p| + |list| * MaxInvVectPayload <= |p + EncodeRecords(list) + rest|
    ensures RecordsAt(p + EncodeRecords(list) + rest, |p|, |list|) == list
    decreases |list|
  {
    if list != [] {
      var data := p + EncodeRecords(list) + rest;
      var head := EncodeInvVect(list[0]);
      assert data == p + head + (EncodeRecords(list[1..]) + rest);
      InvVectRoundTrip(p, list[0], EncodeRecords(list[1..]) + rest);
      assert data == (p + head) + EncodeRecords(list[1..]) + rest;
      RecordsAtEncoded(p + head, list[1..], rest);
    }
  }

  /** Round trip: decoding an encoded message consumes exactly its bytes,
      succeeds, and hands every record to AddInvVect in order. */
  lemma EncodeDecodeRoundTrip(p: seq<byte>, list: seq<InvVect>, rest: seq<byte>, receiver: seq<InvVect>)
    requires |list| <= MaxInvPerMsg
    ensures Decode(p + EncodeMsg(list) + rest, |p|, receiver)
         == Decoded(AppendAll(receiver, list), |p| + |EncodeMsg(list)|, None)
  {
    var data := p + EncodeMsg(list) + rest;
    var start := |p| + |EncodeVarInt(|list|)|;
    EncodedCountAt(p, list, rest);
    RecordsAtEncodedMsg(p, list, rest);
    DecodeWellFormed(data, |p|, start, list, receiver);
  }

  /** A stream holding a count within the bound and then that many records
      decodes them all, handing each to AddInvVect in order. */
  lemma DecodeWellFormed(data: seq<byte>, pos: nat, start: nat, list: seq<InvVect>, receiver: seq<InvVect>)
    requires pos <= |data|
    requires |list| <= MaxInvPerMsg
    requires ParseVarInt(data, pos) == Step(Ok(|list|), start)
    requires start + |list| * MaxInvVectPayload <= |data|
    requires RecordsAt(data, start, |list|) == list
    ensures Decode(data, pos, receiver) == Decoded(AppendAll(receiver, list), start + |list| * MaxInvVectPayload, None)
  {
    DecodeRecordsComplete(data, start, receiver, |list|);
  }

  /** The records of an encoded message, read back after its count. */
  lemma RecordsAtEncodedMsg(p: seq<byte>, list: seq<InvVect>, rest: seq<byte>)
    requires |list| <= MaxInvPerMsg
    ensures |p| + |EncodeVarInt(|list|)| + |list| * MaxInvVectPayload == |p| + |EncodeMsg(list)|
    ensures |p| + |EncodeMsg(list)| <= |p + EncodeMsg(list) + rest|
    ensures RecordsAt(p + EncodeMsg(list) + rest, |p| + |EncodeVarInt(|list|)|, |list|) == list
  {
    var count := EncodeVarInt(|list|);
    assert p + EncodeMsg(list) + rest == (p + count) + EncodeRecords(list) + rest;
    RecordsAtEncoded(p + count, list, rest);
  }

  /** The count of an encoded message reads back as its length. */
  lemma EncodedCountAt(p: seq<byte>, list: seq<InvVect>, rest: seq<byte>)
    requires |list| <= MaxInvPerMsg
    ensures ParseVarInt(p + EncodeMsg(list) + rest, |p|) == Step(Ok(|list|), |p| + |EncodeVarInt(|list|)|)
  {
    assert p + EncodeMsg(list) + rest == p + EncodeVarInt(|list|) + (EncodeRecords(list) + rest);
    VarIntRoundTrip(p, |list|, EncodeRecords(list) + rest);
  }

  /** The round trip on a stream holding nothing but the message. */
  lemma EncodeDecodeAlone(list: seq<InvVect>, receiver: seq<InvVect>)
    requires |list| <= MaxInvPerMsg
    ensures Decode(EncodeMsg(list), 0, receiver) == Decoded(AppendAll(receiver, list), |EncodeMsg(list)|, None)
  {
    var m := EncodeMsg(list);
    assert [] + m + [] == m;
    EncodeDecodeRoundTrip([], list, [], receiver);
  }

  /** Into a fresh message the round trip gives back the list itself. */
  lemma EncodeDecodeFresh(list: seq<InvVect>)
    requires |list| <= MaxInvPerMsg
    ensures Decode(EncodeMsg(list), 0, []) == Decoded(list, |EncodeMsg(list)|, None)
  {
    EncodeDecodeAlone(list, []);
    AppendAllBounded([], list);
  }

  /** Into a receiver that is already full, a well-formed message decodes
      without error while every record in it is dropped. */
  lemma DecodeIntoFullReceiverDrops(list: seq<InvVect>, receiver: seq<InvVect>)
    requires |list| <= MaxInvPerMsg <= |receiver|
    ensures Decode(EncodeMsg(list), 0, receiver) == Decoded(receiver, |EncodeMsg(list)|, None)
  {
    EncodeDecodeAlone(list, receiver);
    AppendAllBounded(receiver, list);
  }

  /** The empty message is the single byte 0 and decodes to the empty list. */
  lemma EmptyMessage()
    ensures EncodeMsg([]) == [0]
    ensures Decode([0], 0, []) == Decoded([], 1, None)
  {
  }

  /** Every encoding of a list within the bound fits the maximum payload. */
  lemma EncodedLengthBounded()
    ensures forall list: seq<InvVect> :: |list| <= MaxInvPerMsg ==>
      |EncodeMsg(list)| <= MaxVarIntPayload + MaxInvPerMsg * MaxInvVectPayload
  {
  }

  // ---------------------------------------------------------------------
  // The message

  class MsgInv {
    var invList: seq<InvVect>

    /** NewMsgInv: a message with no inventory vectors. */
    constructor ()
      ensures invList == []
    {
      invList := [];
    }

    /** AddInvVect: appends iv when the list has room for it; otherwise
        returns an error and leaves the list as it was. */
    method AddInvVect(iv: InvVect) returns (err: Option<Error>)
      modifies this
      ensures err == None <==> |old(invList)| < MaxInvPerMsg
      ensures err == None ==> invList == old(invList) + [iv]
      ensures err != None ==>
                err == Some(MessageError("MsgInv.AddInvVect", MaxInvPerMsg)) && invList == old(invList)
      ensures invList == Appended(old(invList), iv)
      ensures |old(invList)| <= MaxInvPerMsg ==> |invList| <= MaxInvPerMsg
    {
      if |invList| + 1 > MaxInvPerMsg {
        return Some(MessageError("MsgInv.AddInvVect", MaxInvPerMsg));
      }
      invList := invList + [iv];
      return None;
    }

    /** BtcDecode: reads the count, rejects one over the bound, then reads
        count records and hands each to AddInvVect, ignoring its error. */
    method BtcDecode(r: Streams.Reader, pver: uint32) returns (err: Option<Error>)
      requires r.Valid()
      modifies this, r
      ensures r.Valid()
      ensures Decoded(invList, r.pos, err) == Decode(r.data, old(r.pos), old(invList))
      ensures old(invList) <= invList
      ensures |old(invList)| <= MaxInvPerMsg ==> |invList| <= MaxInvPerMsg
    {
      DecodeExtendsReceiver(r.data, r.pos, invList);
      var c := Streams.ReadVarInt(r, pver);
      if c.Fail? {
        return Some(c.err);
      }
      var count := c.value;
      if count > MaxInvPerMsg {
        return Some(MessageError("MsgInv.BtcDecode", count));
      }
      ghost var goal := DecodeRecords(r.data, r.pos, invList, count);
      var i := 0;
      while i < count
        invariant r.Valid() && i <= count
        invariant DecodeRecords(r.data, r.pos, invList, count - i) == goal
      {
        var iv := Streams.ReadInvVect(r, pver);
        if iv.Fail? {
          return Some(iv.err);
        }
        var _ := AddInvVect(iv.value);
        i := i + 1;
      }
      return None;
    }

    /** BtcEncode: rejects a list over the bound without writing, then writes
        the count and the records in order, stopping at the first failed write. */
    method BtcEncode(w: Streams.Writer, pver: uint32) returns (err: Option<Error>)
      modifies w
      ensures |invList| > MaxInvPerMsg ==>
                err == Some(MessageError("MsgInv.BtcEncode", |invList|)) && w.bytes == old(w.bytes)
      ensures |invList| <= MaxInvPerMsg ==>
                && (err == None <==> |old(w.bytes)| + |EncodeMsg(invList)| <= w.limit)
                && (err == None ==> w.bytes == old(w.bytes) + EncodeMsg(invList))
                && (err != None ==> err == Some(WriteFailed)
                                    && old(w.bytes) <= w.bytes <= old(w.bytes) + EncodeMsg(invList))
    {
      var count := |invList|;
      if count > MaxInvPerMsg {
        return Some(MessageError("MsgInv.BtcEncode", count));
      }
      ghost var before := w.bytes;
      ghost var payload := EncodeMsg(invList);
      err := Streams.WriteVarInt(w, pver, count);
      if err.Some? {
        return;
      }
      var i := 0;
      while i < count
        invariant i <= count
        invariant w.bytes == before + EncodeVarInt(count) + EncodeRecords(invList[..i])
        invariant err == None && |w.bytes| <= w.limit
      {
        EncodeRecordsSnoc(invList, i);
        EncodeStopsInside(before, invList, i);
        err := Streams.WriteInvVect(w, pver, invList[i]);
        if err.Some? {
          return;
        }
        i := i + 1;
      }
      assert invList[..i] == invList;
      assert w.bytes == before + payload;
    }

    /** Command: the command string, constant for every message of this type. */
    function Command(): (c: string)
      ensures c == CmdInv && |c| <= CommandSize
    {
      CmdInv
    }

    /** MaxPayloadLength: a bound, for every protocol version, on the length of
        any payload BtcEncode can produce. */
    function MaxPayloadLength(pver: uint32): (n: uint32)
      ensures forall list: seq<InvVect> :: |list| <= MaxInvPerMsg ==> |EncodeMsg(list)| <= n
    {
      EncodedLengthBounded();
      MaxVarIntPayload + (MaxInvPerMsg * MaxInvVectPayload)
    }
  }

  /** A client: encoding a bounded message into a writer as large as the
      maximum payload and decoding the bytes into a fresh message gives back
      the same vectors and consumes exactly the bytes written. */
  method EncodeThenDecode(msg: MsgInv, pver: uint32)
    returns (wire: seq<byte>, encodeErr: Option<Error>, decoded: seq<InvVect>, decodeErr: Option<Error>, consumed: nat)
    requires |msg.invList| <= MaxInvPerMsg
    ensures encodeErr == None && decodeErr == None
    ensures wire == EncodeMsg(msg.invList) && |wire| <= msg.MaxPayloadLength(pver)
    ensures decoded == msg.invList && consumed == |wire|
  {
    var w := new Streams.Writer(msg.MaxPayloadLength(pver));
    encodeErr := msg.BtcEncode(w, pver);
    wire := w.bytes;
    var r := new Streams.Reader(wire);
    var received := new MsgInv();
    EncodeDecodeFresh(msg.invList);
    assert r.data == EncodeMsg(msg.invList) && r.pos == 0 && received.invList == [];
    decodeErr := received.BtcDecode(r, pver);
    assert Decoded(received.invList, r.pos, decodeErr) == Decode(EncodeMsg(msg.invList), 0, []);
    decoded, consumed := received.invList, r.pos;
  }
}
