/** Peers, their 20-byte identifiers and the 128-bit value that routing uses for each of them. */
module Nodes {
  import opened Bits

  datatype Option<+T> = None | Some(value: T)

  type byte = b: int | 0 <= b < 256

  type Bytes = seq<byte>

  const ID_LEN: nat := 20

  type Id = s: seq<byte> | |s| == ID_LEN witness seq(ID_LEN, _ => 0)

  /** The width of the routing space in bits. */
  const BITS: nat := 128

  /** Big-endian value of a byte string. */
  function FromBytes(s: seq<byte>): (n: nat)
    ensures n < Pow2(8 * |s|)
  {
    if s == [] then 0
    else
      assert Pow2(8 * |s|) == 256 * Pow2(8 * (|s| - 1)) by { TimesByte(|s| - 1); }
      256 * FromBytes(s[..|s| - 1]) + s[|s| - 1]
  }

  /** The value of one byte. */
  lemma FromOneByte(b: byte)
    ensures FromBytes([b]) == b
  {
    assert [b][..0] == [];
  }

  /** Bytes in front count for as many powers of 256 as there are bytes behind them. */
  lemma {:induction false} FromBytesConcat(s: seq<byte>, t: seq<byte>)
    ensures FromBytes(s + t) == FromBytes(s) * Pow2(8 * |t|) + FromBytes(t)
    decreases |t|
  {
    if t == [] {
      assert s + t == s;
    } else {
      var front, b := t[..|t| - 1], t[|t| - 1];
      assert (s + t)[..|s + t| - 1] == s + front && (s + t)[|s + t| - 1] == b;
      FromBytesConcat(s, front);
      TimesByte(|front|);
      Distribute(FromBytes(s), Pow2(8 * |front|), FromBytes(front), b);
    }
  }

  lemma Distribute(v: nat, p: nat, f: nat, b: nat)
    ensures 256 * (v * p + f) + b == v * (256 * p) + (256 * f + b)
  {
    assert 256 * (v * p) == v * (256 * p);
  }

  /** The `len` low bytes of a value, big-endian. */
  function ToBytes(n: nat, len: nat): (s: seq<byte>)
    ensures |s| == len
    decreases len
  {
    if len == 0 then [] else ToBytes(n / 256, len - 1) + [n % 256]
  }

  lemma TimesByte(n: nat)
    ensures Pow2(8 * (n + 1)) == 256 * Pow2(8 * n)
  {
    var e := 8 * n;
    assert Pow2(e + 4) == 2 * Pow2(e + 3) == 4 * Pow2(e + 2) == 8 * Pow2(e + 1);
    assert Pow2(e + 8) == 2 * Pow2(e + 7) == 4 * Pow2(e + 6) == 8 * Pow2(e + 5);
  }

  lemma {:induction false} FromToBytes(n: nat, len: nat)
    requires n < Pow2(8 * len)
    ensures FromBytes(ToBytes(n, len)) == n
    decreases len
  {
    if len != 0 {
      TimesByte(len - 1);
      FromToBytes(n / 256, len - 1);
      assert ToBytes(n, len)[..len - 1] == ToBytes(n / 256, len - 1);
    }
  }

  lemma {:induction false} ToFromBytes(s: seq<byte>)
    ensures ToBytes(FromBytes(s), |s|) == s
  {
    if s != [] {
      var front, b := s[..|s| - 1], s[|s| - 1];
      ToFromBytes(front);
      LastByte(FromBytes(front), b, FromBytes(s));
      assert s == front + [b];
    }
  }

  lemma LastByte(v: nat, b: byte, n: nat)
    requires n == 256 * v + b
    ensures n / 256 == v && n % 256 == b
  {
  }

  /** The last four bytes of an identifier, moved to the top 32 bits. */
  function Tail(t: seq<byte>): (n: nat)
    requires |t| == 4
    ensures n < Pow2(8 * |t| + 96)
  {
    Shifted(FromBytes(t), 8 * |t|, 96)
  }

  /** A number of `a` bits, moved up by `b` bits. */
  function Shifted(v: nat, a: nat, b: nat): (n: nat)
    requires v < Pow2(a)
    ensures n < Pow2(a + b)
  {
    PowerSum(a, b);
    Product(v, Pow2(a), Pow2(b));
    v * Pow2(b)
  }

  lemma Product(a: nat, b: nat, c: nat)
    requires a < b && c > 0
    ensures a * c < b * c
  {
    assert b * c == a * c + (b - a) * c;
  }

  lemma {:induction false} PowerSum(a: nat, b: nat)
    ensures Pow2(a + b) == Pow2(a) * Pow2(b)
  {
    if a != 0 {
      PowerSum(a - 1, b);
    }
  }

  /** The 20-byte identifier folded into 128 bits. */
  function Fold(id: Id): (n: nat)
    ensures n < Pow2(BITS)
  {
    XorBound(FromBytes(id[..16]), Tail(id[16..]), BITS);
    Xor(FromBytes(id[..16]), Tail(id[16..]))
  }

  /** The first four bytes and the last four are combined into the top 32 bits; the twelve between them are the
      other 96. */
  lemma FoldParts(id: Id, e: nat)
    requires e == 96
    ensures Fold(id) / Pow2(e) == Xor(FromBytes(id[..4]), FromBytes(id[16..]))
    ensures Fold(id) % Pow2(e) == FromBytes(id[4..16])
  {
    var p, high, low, tail := Pow2(e), FromBytes(id[..4]), FromBytes(id[4..16]), FromBytes(id[16..]);
    assert id[..16] == id[..4] + id[4..16] && 8 * |id[4..16]| == e;
    FromBytesConcat(id[..4], id[4..16]);
    CombineHigh(high, low, tail, e, p, FromBytes(id[..16]), Tail(id[16..]));
  }

  lemma CombineHigh(high: nat, low: nat, tail: nat, e: nat, p: nat, base: nat, top: nat)
    requires p == Pow2(e) && low < p && base == high * p + low && top == tail * p
    ensures Xor(base, top) / p == Xor(high, tail) && Xor(base, top) % p == low
  {
    XorHigh(high, tail, low, e, p, base, top);
    assert Xor(high, tail) * p == p * Xor(high, tail);
    QuotientIs(Xor(base, top), p, Xor(high, tail), low);
  }

  /** The identifier with the given fold and the given last four bytes. */
  function Unfold(n: nat, tail: seq<byte>): (id: Id)
    requires n < Pow2(BITS) && |tail| == 4
  {
    ToBytes(Xor(n, Tail(tail)), 16) + tail
  }

  /** Folding has one preimage for each choice of the last four bytes, so 2^32 identifiers share
      every folded value. */
  lemma FoldFibre(id: Id, n: nat, tail: seq<byte>)
    requires n < Pow2(BITS) && |tail| == 4
    ensures Fold(id) == n && id[16..] == tail <==> id == Unfold(n, tail)
  {
    var x := Tail(tail);
    XorBound(n, x, BITS);
    FromToBytes(Xor(n, x), 16);
    XorInverse(n, x);
    assert Unfold(n, tail)[..16] == ToBytes(Xor(n, x), 16);
    assert Unfold(n, tail)[16..] == tail;
    if Fold(id) == n && id[16..] == tail {
      XorInverse(FromBytes(id[..16]), x);
      ToFromBytes(id[..16]);
      assert id == id[..16] + id[16..];
    }
  }

  lemma LowBit(bit: nat, rest: nat, a: nat, b: nat)
    requires bit == (a + b) % 2
    ensures var x := bit + 2 * rest; x / 2 == rest && (x + b) % 2 == a % 2
  {
  }

  lemma {:induction false} XorInverse(a: nat, b: nat)
    ensures Xor(Xor(a, b), b) == a
    decreases a + b
  {
    if a + b != 0 {
      XorInverse(a / 2, b / 2);
      LowBit((a + b) % 2, Xor(a / 2, b / 2), a, b);
    }
  }

  /** A peer. Two values with one identifier are the same peer, perhaps at another address.
      `longId` is the identifier folded to the routing width. */
  datatype Node = Node(id: Id, ip: Option<string>, port: Option<nat>, longId: nat) {
    /** Exclusive-or distance, the Kademlia metric. */
    function DistanceTo(other: Node): (d: nat) {
      Xor(longId, other.longId)
    }
  }

  /** A peer as every constructor of the program builds it. */
  function MakeNode(id: Id, ip: Option<string>, port: Option<nat>): (n: Node) {
    Node(id, ip, port, Fold(id))
  }
}
