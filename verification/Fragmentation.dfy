/** Cutting a serialized message into datagrams and parsing one datagram. */
module Fragmentation {
  import opened Nodes

  /** "KADF" */
  const MAGIC: Bytes := [0x4B, 0x41, 0x44, 0x46]
  const HEADER_LEN: nat := 12
  const CHUNK_SIZE: nat := 1400
  const MAX_MESSAGE_SIZE: nat := 256 * 1024
  const FRAG_ID_LIMIT: nat := 0x1_0000_0000

  /** The 16 low bits, as a cast to `u16` keeps them. */
  function U16(n: nat): (r: nat) {
    n % 65536
  }

  function Header(fragId: nat, index: nat, total: nat): (h: Bytes)
    ensures |h| == HEADER_LEN
  {
    MAGIC + ToBytes(fragId, 4) + ToBytes(index, 2) + ToBytes(total, 2)
  }

  datatype Fragment = Fragment(fragId: nat, index: nat, total: nat, chunk: Bytes)

  /** A datagram without the magic number, without a full header or with an impossible index is not a
      fragment. */
  function Parse(data: Bytes): Option<Fragment> {
    if |data| < HEADER_LEN || data[..4] != MAGIC then None
    else
      var fragId, index, total := FromBytes(data[4..8]), FromBytes(data[8..10]), FromBytes(data[10..12]);
      if total == 0 || index >= total then None
      else Some(Fragment(fragId, index, total, data[HEADER_LEN..]))
  }

  /** A message in chunks of the maximal size, the last one perhaps shorter. */
  function Chunks(payload: Bytes): (cs: seq<Bytes>) {
    if payload == [] then []
    else if |payload| <= CHUNK_SIZE then [payload]
    else [payload[..CHUNK_SIZE]] + Chunks(payload[CHUNK_SIZE..])
  }

  /** The chunks that are sent: an empty message travels as one empty chunk. */
  function Pieces(payload: Bytes): (cs: seq<Bytes>)
    ensures cs != []
  {
    if payload == [] then [[]] else Chunks(payload)
  }

  function Join(cs: seq<Bytes>): Bytes {
    if cs == [] then [] else cs[0] + Join(cs[1..])
  }

  lemma {:induction false} ChunkCount(payload: Bytes)
    ensures |Chunks(payload)| == (|payload| + CHUNK_SIZE - 1) / CHUNK_SIZE
  {
    if |payload| > CHUNK_SIZE {
      ChunkCount(payload[CHUNK_SIZE..]);
    }
  }

  lemma {:induction false} JoinChunks(payload: Bytes)
    ensures Join(Chunks(payload)) == payload
  {
    if 0 < |payload| <= CHUNK_SIZE {
      assert Join([payload]) == payload + Join([payload][1..]);
    } else if payload != [] {
      var cs := Chunks(payload);
      assert cs[1..] == Chunks(payload[CHUNK_SIZE..]);
      JoinChunks(payload[CHUNK_SIZE..]);
    }
  }

  /** Datagram `i` of a message. */
  function Datagram(fragId: nat, payload: Bytes, i: nat): Bytes
    requires i < |Pieces(payload)|
  {
    Header(fragId, U16(i), U16(|Pieces(payload)|)) + Pieces(payload)[i]
  }

  lemma NextChunk(rest: Bytes, size: nat, cs: seq<Bytes>, n: nat)
    requires rest != [] && size == (if |rest| <= CHUNK_SIZE then |rest| else CHUNK_SIZE)
    requires n <= |cs| && Chunks(rest) == cs[n..]
    ensures n < |cs| && cs[n] == rest[..size] && Chunks(rest[size..]) == cs[n + 1..]
  {
    if |rest| <= CHUNK_SIZE {
      assert rest[..size] == rest && rest[size..] == [];
    }
    assert Chunks(rest) == [rest[..size]] + Chunks(rest[size..]);
    assert cs[n..][0] == cs[n] && cs[n..][1..] == cs[n + 1..];
  }

  lemma NextDatagram(fragId: nat, payload: Bytes, n: nat, chunk: Bytes, total: nat)
    requires payload != [] && n < |Chunks(payload)| && chunk == Chunks(payload)[n] && total == U16(|Chunks(payload)|)
    ensures Header(fragId, U16(n), total) + chunk == Datagram(fragId, payload, n)
  {
  }

  /** The first datagrams of a message. */
  ghost predicate Sent(out: seq<Bytes>, fragId: nat, payload: Bytes) {
    |out| <= |Pieces(payload)| && forall i | 0 <= i < |out| :: out[i] == Datagram(fragId, payload, i)
  }

  lemma SentMore(out: seq<Bytes>, fragId: nat, payload: Bytes, d: Bytes)
    requires Sent(out, fragId, payload) && |out| < |Pieces(payload)| && d == Datagram(fragId, payload, |out|)
    ensures Sent(out + [d], fragId, payload)
  {
  }

  method EncodeFragments(fragId: nat, payload: Bytes) returns (out: seq<Bytes>)
    ensures |out| == |Pieces(payload)|
    ensures forall i | 0 <= i < |out| :: out[i] == Datagram(fragId, payload, i)
  {
    if payload == [] {
      assert Datagram(fragId, payload, 0) == Header(fragId, 0, 1);
      return [Header(fragId, 0, 1)];
    }
    ChunkCount(payload);
    var total := U16((|payload| + CHUNK_SIZE - 1) / CHUNK_SIZE);
    ghost var cs := Chunks(payload);
    out := [];
    var rest := payload;
    while rest != []
      invariant |out| <= |cs| && Chunks(rest) == cs[|out|..]
      invariant Sent(out, fragId, payload)
      decreases |rest|
    {
      var size := if |rest| <= CHUNK_SIZE then |rest| else CHUNK_SIZE;
      NextChunk(rest, size, cs, |out|);
      NextDatagram(fragId, payload, |out|, rest[..size], total);
      SentMore(out, fragId, payload, Header(fragId, U16(|out|), total) + rest[..size]);
      out := out + [Header(fragId, U16(|out|), total) + rest[..size]];
      rest := rest[size..];
    }
  }

  /** The sender's limit allows up to 188 pieces; the projected size of 187 still fits the receiver's
      limit and that of 188 does not. */
  lemma PieceCount(payload: Bytes)
    requires |payload| <= MAX_MESSAGE_SIZE
    ensures |Pieces(payload)| <= 188
    ensures |Pieces(payload)| * CHUNK_SIZE <= MAX_MESSAGE_SIZE <==> |payload| <= 187 * CHUNK_SIZE
    ensures |Pieces(payload)| == 1 <==> |payload| <= CHUNK_SIZE
  {
    ChunkCount(payload);
  }

  /** A parsed datagram of a message that the sender accepts is what the sender put in. */
  lemma ParseDatagram(fragId: nat, payload: Bytes, i: nat)
    requires fragId < FRAG_ID_LIMIT && |payload| <= MAX_MESSAGE_SIZE && i < |Pieces(payload)|
    ensures Parse(Datagram(fragId, payload, i)) ==
            Some(Fragment(fragId, i, |Pieces(payload)|, Pieces(payload)[i]))
  {
    PieceCount(payload);
    SmallIndex(i, |Pieces(payload)|);
    HeaderFields(fragId, i, |Pieces(payload)|, Pieces(payload)[i], Datagram(fragId, payload, i));
  }

  /** The bytes are those of a fragment: magic number, three numbers and the chunk, and the index below the count. */
  ghost predicate IsFragment(data: Bytes, f: Fragment) {
    exists b, c, d :: LaidOut(data, f, b, c, d)
  }

  ghost predicate LaidOut(data: Bytes, f: Fragment, b: Bytes, c: Bytes, d: Bytes) {
    && |b| == 4 && |c| == |d| == 2 && data == [0x4B, 0x41, 0x44, 0x46] + b + c + d + f.chunk
    && FromBytes(b) == f.fragId && FromBytes(c) == f.index && FromBytes(d) == f.total && f.index < f.total
  }

  /** Parsing accepts exactly the bytes of a fragment, and reads that fragment. */
  lemma ParseExactly(data: Bytes, f: Fragment)
    ensures Parse(data) == Some(f) <==> IsFragment(data, f)
  {
    if IsFragment(data, f) {
      var b, c, d :| LaidOut(data, f, b, c, d);
      ParseParts(b, c, d, f.chunk);
    }
    if Parse(data) == Some(f) {
      assert data == data[..4] + data[4..8] + data[8..10] + data[10..12] + data[12..];
      assert LaidOut(data, f, data[4..8], data[8..10], data[10..12]);
    }
  }

  /** Where the parts of a datagram stand: the four magic bytes, the number of the message in four bytes, the index
      and the count in two each, all with the most significant byte first, and then the chunk. */
  lemma DatagramLayout(fragId: nat, payload: Bytes, i: nat)
    requires fragId < FRAG_ID_LIMIT && |payload| <= MAX_MESSAGE_SIZE && i < |Pieces(payload)|
    ensures var d := Datagram(fragId, payload, i);
      && |d| >= 12 && d[..4] == [0x4B, 0x41, 0x44, 0x46] && FromBytes(d[4..8]) == fragId
      && FromBytes(d[8..10]) == i && FromBytes(d[10..12]) == |Pieces(payload)| && d[12..] == Pieces(payload)[i]
  {
    PieceCount(payload);
    SmallIndex(i, |Pieces(payload)|);
    var b, c, d := HeaderParts(fragId, i, |Pieces(payload)|);
    Layout(MAGIC, b, c, d, Pieces(payload)[i]);
  }

  /** Piece `i` is the stretch of the payload that begins at 1400 times `i` and is 1400 long, or ends with it. */
  lemma {:induction false} ChunkAt(payload: Bytes, i: nat)
    requires i < |Chunks(payload)|
    ensures var lo := CHUNK_SIZE * i;
      lo < |payload| && Chunks(payload)[i] == payload[lo..if lo + CHUNK_SIZE < |payload| then lo + CHUNK_SIZE else |payload|]
  {
    if i > 0 {
      ChunkAt(payload[CHUNK_SIZE..], i - 1);
    }
  }

  lemma SmallIndex(i: nat, total: nat)
    requires i < total < 65536
    ensures U16(i) == i && U16(total) == total
  {
  }

  lemma HeaderFields(fragId: nat, index: nat, total: nat, chunk: Bytes, data: Bytes)
    requires fragId < FRAG_ID_LIMIT && index < total < 65536 && data == Header(fragId, index, total) + chunk
    ensures Parse(data) == Some(Fragment(fragId, index, total, chunk))
  {
    var b, c, d := HeaderParts(fragId, index, total);
    ParseParts(b, c, d, chunk);
  }

  lemma HeaderParts(fragId: nat, index: nat, total: nat) returns (b: Bytes, c: Bytes, d: Bytes)
    requires fragId < FRAG_ID_LIMIT && index < 65536 && total < 65536
    ensures Header(fragId, index, total) == MAGIC + b + c + d && |b| == 4 && |c| == |d| == 2
    ensures FromBytes(b) == fragId && FromBytes(c) == index && FromBytes(d) == total
  {
    FourBytes(fragId);
    TwoBytes(index);
    TwoBytes(total);
    b, c, d := ToBytes(fragId, 4), ToBytes(index, 2), ToBytes(total, 2);
  }

  lemma TwoBytes(n: nat)
    requires n < 65536
    ensures FromBytes(ToBytes(n, 2)) == n
  {
    TimesByte(0);
    TimesByte(1);
    FromToBytes(n, 2);
  }

  lemma FourBytes(n: nat)
    requires n < FRAG_ID_LIMIT
    ensures FromBytes(ToBytes(n, 4)) == n
  {
    TimesByte(0);
    TimesByte(1);
    TimesByte(2);
    TimesByte(3);
    FromToBytes(n, 4);
  }

  lemma ParseParts(b: Bytes, c: Bytes, d: Bytes, e: Bytes)
    requires |b| == 4 && |c| == |d| == 2 && FromBytes(c) < FromBytes(d)
    ensures Parse(MAGIC + b + c + d + e) == Some(Fragment(FromBytes(b), FromBytes(c), FromBytes(d), e))
  {
    Layout(MAGIC, b, c, d, e);
  }

  lemma Layout(a: Bytes, b: Bytes, c: Bytes, d: Bytes, e: Bytes)
    requires |a| == |b| == 4 && |c| == |d| == 2
    ensures var data := a + b + c + d + e;
      |data| >= 12 && data[..4] == a && data[4..8] == b && data[8..10] == c && data[10..12] == d && data[12..] == e
  {
  }
}
