/**
 * Byte-level primitives the inv message is built from: fixed-width
 * little-endian integers, io.ReadFull on a byte stream, the variable-length
 * integer ("CompactSize") used for counts, and the fixed-size inventory
 * vector record.  The message codec uses the round-trip, fixed-size and
 * truncation lemmas proved here, and can see the codecs' bodies.
 */
module Wire {

  type byte = x: int | 0 <= x < 0x100
  type uint32 = x: int | 0 <= x < 0x1_0000_0000
  type uint64 = x: int | 0 <= x < 0x1_0000_0000_0000_0000

  datatype Option<T> = None | Some(value: T)

  /** Go error values, reduced to their kind. */
  datatype Error =
    | EOF                                     // io.EOF: no byte of the item was available
    | UnexpectedEOF                           // io.ErrUnexpectedEOF: the stream ended inside the item
    | WriteFailed                             // the writer refused a write
    | MessageError(origin: string, detail: nat) // messageError(origin, ...) and the number its text reports

  datatype Result<T> = Ok(value: T) | Fail(err: Error)

  /** The outcome of a read together with the cursor position after it. */
  datatype Step<T> = Step(res: Result<T>, pos: nat)

  /** Largest serialised size of a variable-length integer. */
  const MaxVarIntPayload: nat := 9
  const HashSize: nat := 32
  /** Serialised size of an inventory vector: a 4-byte type and a hash. */
  const MaxInvVectPayload: nat := 36

  /** An inventory vector: the kind of object advertised and its hash. */
  type Hash = s: seq<byte> | |s| == HashSize witness seq(32, i => 0)
  datatype InvVect = InvVect(invType: uint32, hash: Hash)

  function Pow256(n: nat): (r: nat)
    ensures r > 0
  {
    if n == 0 then 1 else 256 * Pow256(n - 1)
  }

  lemma Pow256Values()
    ensures Pow256(2) == 0x1_0000
    ensures Pow256(4) == 0x1_0000_0000
    ensures Pow256(8) == 0x1_0000_0000_0000_0000
  {
  }

  /** The n low-order bytes of x, least significant first (a truncating cast). */
  function LittleEndian(x: nat, n: nat): (r: seq<byte>)
    ensures |r| == n
  {
    if n == 0 then [] else [x % 256] + LittleEndian(x / 256, n - 1)
  }

  function FromLittleEndian(s: seq<byte>): (r: nat)
    ensures r < Pow256(|s|)
  {
    if s == [] then 0 else s[0] + 256 * FromLittleEndian(s[1..])
  }

  lemma {:induction false} LittleEndianRoundTrip(x: nat, n: nat)
    requires x < Pow256(n)
    ensures FromLittleEndian(LittleEndian(x, n)) == x
  {
    if n > 0 {
      LittleEndianRoundTrip(x / 256, n - 1);
      assert LittleEndian(x, n)[1..] == LittleEndian(x / 256, n - 1);
    }
  }

  /** io.ReadFull of n bytes at pos: when fewer remain, the remaining ones are
      consumed and the error says whether any byte was read. */
  function ReadFull(data: seq<byte>, pos: nat, n: nat): (r: Step<seq<byte>>)
    requires pos <= |data|
    ensures pos <= r.pos <= |data|
    ensures r.res.Ok? ==> |r.res.value| == n && r.pos == pos + n
  {
    if pos + n <= |data| then Step(Ok(data[pos..pos + n]), pos + n)
    else Step(Fail(if pos == |data| then EOF else UnexpectedEOF), |data|)
  }

  /** Two reads in a row, of a and then of b bytes, behave as one read of
      a + b: both succeed exactly when the single read does, they return the
      same bytes and leave the same cursor, and when the single read fails
      the pair also ends with the stream drained. */
  lemma ReadFullSequential(data: seq<byte>, pos: nat, a: nat, b: nat)
    requires pos <= |data|
    ensures var first := ReadFull(data, pos, a);
            var second := ReadFull(data, first.pos, b);
            var whole := ReadFull(data, pos, a + b);
            && (whole.res.Ok? <==> first.res.Ok? && second.res.Ok?)
            && (whole.res.Ok? ==> whole == Step(Ok(first.res.value + second.res.value), second.pos))
            && (whole.res.Fail? ==> whole.pos == |data| && (first.res.Fail? || second.pos == |data|))
  {
    if pos + a + b <= |data| {
      assert data[pos..pos + a + b] == data[pos..pos + a] + data[pos + a..pos + a + b];
    }
  }

  /** Reading exactly the bytes s placed at the cursor returns s, whatever
      precedes or follows them. */
  lemma ReadFullAt(p: seq<byte>, s: seq<byte>, rest: seq<byte>)
    ensures ReadFull(p + s + rest, |p|, |s|) == Step(Ok(s), |p| + |s|)
  {
  }

  /** readVarInt: a discriminant byte, then 2, 4 or 8 little-endian bytes
      for the discriminants 0xfd, 0xfe and 0xff. */
  function ParseVarInt(data: seq<byte>, pos: nat): (r: Step<uint64>)
    requires pos <= |data|
    ensures pos <= r.pos <= |data|
    ensures r.res.Ok? ==> pos < r.pos
  {
    var d := ReadFull(data, pos, 1);
    match d.res
    case Fail(e) => Step(Fail(e), d.pos)
    case Ok(b) =>
      var discriminant := b[0];
      if discriminant < 0xfd then Step(Ok(discriminant), d.pos)
      else
        var width := if discriminant == 0xfd then 2 else if discriminant == 0xfe then 4 else 8;
        var v := ReadFull(data, d.pos, width);
        match v.res
        case Fail(e) => Step(Fail(e), v.pos)
        case Ok(bytes) =>
          Pow256Values();
          Step(Ok(FromLittleEndian(bytes)), v.pos)
  }

  /** writeVarInt: the shortest of the four encodings that holds x. */
  function EncodeVarInt(x: uint64): (r: seq<byte>)
    ensures 1 <= |r| <= MaxVarIntPayload
  {
    if x < 0xfd then [x]
    else if x <= 0xffff then [0xfd] + LittleEndian(x, 2)
    else if x <= 0xffff_ffff then [0xfe] + LittleEndian(x, 4)
    else [0xff] + LittleEndian(x, 8)
  }

  /** Reading back an encoded integer yields it and consumes exactly its bytes,
      whatever precedes or follows it in the stream. */
  lemma VarIntRoundTrip(p: seq<byte>, x: uint64, rest: seq<byte>)
    ensures ParseVarInt(p + EncodeVarInt(x) + rest, |p|) == Step(Ok(x), |p| + |EncodeVarInt(x)|)
  {
    var e := EncodeVarInt(x);
    var data := p + e + rest;
    // The next two asserts locate the encoding inside data; they keep the
    // proof small and stable for the solver.
    assert data[|p|] == e[0];
    if x >= 0xfd {
      var tail := e[1..];
      assert data[|p| + 1..|p| + 1 + |tail|] == tail;
      Pow256Values();
      LittleEndianRoundTrip(x, |tail|);
    }
  }

  /** A stream that ends inside an encoded integer: the read fails and drains
      the stream, with io.EOF when no byte after the discriminant was there. */
  lemma VarIntTruncated(p: seq<byte>, x: uint64, j: nat)
    requires j < |EncodeVarInt(x)|
    ensures ParseVarInt(p + EncodeVarInt(x)[..j], |p|)
         == Step(Fail(if j <= 1 then EOF else UnexpectedEOF), |p| + j)
  {
    var e := EncodeVarInt(x);
    var data := p + e[..j];
    assert |data| == |p| + j;
    if j > 0 {
      assert data[|p|] == e[0];
      assert e[0] >= 0xfd;
    }
  }

  /** writeInvVect: the type as 4 little-endian bytes, then the hash. */
  function EncodeInvVect(iv: InvVect): (r: seq<byte>)
    ensures |r| == MaxInvVectPayload
  {
    LittleEndian(iv.invType, 4) + iv.hash
  }

  /** readInvVect: the type and then the hash, each read with io.ReadFull.
      A record is read exactly when a whole one remains. */
  function ParseInvVect(data: seq<byte>, pos: nat): (r: Step<InvVect>)
    requires pos <= |data|
    ensures r.res.Ok? <==> pos + MaxInvVectPayload <= |data|
    ensures r.res.Ok? ==> r.pos == pos + MaxInvVectPayload
    ensures r.res.Fail? ==> r.pos == |data|
  {
    var t := ReadFull(data, pos, 4);
    match t.res
    case Fail(e) => Step(Fail(e), t.pos)
    case Ok(typeBytes) =>
      var h := ReadFull(data, t.pos, HashSize);
      match h.res
      case Fail(e) => Step(Fail(e), h.pos)
      case Ok(hashBytes) =>
        Pow256Values();
        Step(Ok(InvVect(FromLittleEndian(typeBytes), hashBytes)), h.pos)
  }

  lemma InvVectRoundTrip(p: seq<byte>, iv: InvVect, rest: seq<byte>)
    ensures ParseInvVect(p + EncodeInvVect(iv) + rest, |p|) == Step(Ok(iv), |p| + MaxInvVectPayload)
  {
    var t := LittleEndian(iv.invType, 4);
    var data := p + EncodeInvVect(iv) + rest;
    // One read of the whole record, split into the type read and the hash read.
    ReadFullAt(p, EncodeInvVect(iv), rest);
    ReadFullSequential(data, |p|, 4, HashSize);
    var first := ReadFull(data, |p|, 4);
    var second := ReadFull(data, first.pos, HashSize);
    assert first.res.value + second.res.value == t + iv.hash;
    assert first.res.value == t && second.res.value == iv.hash by {
      assert first.res.value == (t + iv.hash)[..4];
      assert second.res.value == (t + iv.hash)[4..];
    }
    Pow256Values();
    LittleEndianRoundTrip(iv.invType, 4);
  }

  /** A stream that ends inside a record: the read fails and drains the stream.
      The error is io.EOF when the stream ends exactly before the record or
      exactly between its type and its hash, and io.ErrUnexpectedEOF otherwise. */
  lemma ParseInvVectTruncated(data: seq<byte>, pos: nat)
    requires pos <= |data| < pos + MaxInvVectPayload
    ensures ParseInvVect(data, pos)
         == Step(Fail(if |data| - pos == 0 || |data| - pos == 4 then EOF else UnexpectedEOF), |data|)
  {
  }
}
