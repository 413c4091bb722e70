/** The length of the prefix that the identifiers of a bucket share, read off the identifiers as numbers. */
module Depths {
  import opened Bits
  import opened Nodes
  import opened Buckets
  import opened Insertion

  lemma DivideTwice(n: nat, p: nat, s: nat)
    requires p >= 1 && s >= 1
    ensures p * s >= 1 && n / (p * s) == n / p / s
  {
    var m := n / p;
    var q, r := m / s, m % s;
    var c := n % p;
    assert m == s * q + r && n == p * m + c;
    assert p * m == (p * s) * q + p * r;
    assert p * r + p <= p * s by {
      Multiples(p, r, s);
    }
    QuotientIs(n, p * s, q, p * r + c);
  }

  /** The bits of a byte are the lowest bits of every number that ends with it. */
  lemma BitOfLastByte(a: nat, b: byte, s: nat)
    requires s < 8
    ensures (256 * a + b) / Pow2(s) % 2 == b / Pow2(s) % 2
  {
    PowerSum(s, 7 - s);
    SevenBits();
    EvenAbove(a, b, Pow2(s), Pow2(7 - s));
  }

  lemma SevenBits()
    ensures Pow2(7) == 128
  {
    assert Pow2(3) == 8 && Pow2(5) == 32 && Pow2(7) == 128;
  }

  lemma EvenAbove(a: nat, b: nat, p: nat, t: nat)
    requires p >= 1 && p * t == 128
    ensures (256 * a + b) / p % 2 == b / p % 2
  {
    var q, r, h := b / p, b % p, t * a;
    assert b == p * q + r;
    assert p * h == (p * t) * a;
    assert p * (2 * h + q) == 2 * (p * h) + p * q;
    QuotientIs(256 * a + b, p, 2 * h + q, r);
    EvenPlus(h, q);
  }

  lemma EvenPlus(h: nat, q: nat)
    ensures (2 * h + q) % 2 == q % 2
  {
  }

  /** A number of several bytes without its last bytes. */
  lemma WithoutLastBytes(s: Bytes, t: Bytes)
    ensures FromBytes(s + t) / Pow2(8 * |t|) == FromBytes(s)
  {
    FromBytesConcat(s, t);
    HighPart(FromBytes(s + t), FromBytes(s), Pow2(8 * |t|), FromBytes(t));
  }

  lemma HighPart(n: nat, v: nat, p: nat, r: nat)
    requires n == v * p + r && r < p
    ensures n / p == v
  {
    QuotientIs(n, p, v, r);
  }

  lemma Places(j: nat, q: nat, s: nat, e: nat)
    requires j < ID_BITS && q == j / 8 && s == 7 - j % 8 && e == 8 * (ID_LEN - 1 - q)
    ensures q < ID_LEN && e + s == ID_BITS - 1 - j
  {
  }

  /** Bit `j` of an identifier is that of the identifier as a number, counted from the top. */
  lemma BitAtIs(id: Id, j: nat)
    requires j < ID_BITS
    ensures BitAt(id, j) == Bit(FromBytes(id), ID_BITS - 1 - j)
  {
    var q, s := j / 8, 7 - j % 8;
    var e := 8 * (ID_LEN - 1 - q);
    Places(j, q, s, e);
    var front, b, rest := id[..q], id[q], id[q + 1..];
    assert id == (front + [b]) + rest && |rest| == ID_LEN - 1 - q;
    WithoutLastBytes(front + [b], rest);
    assert (front + [b])[..q] == front;
    PowerSum(e, s);
    DivideTwice(FromBytes(id), Pow2(e), Pow2(s));
    BitOfLastByte(FromBytes(front), b, s);
  }

  /** The first `d` bits of an identifier. */
  function Prefix(id: Id, d: nat): nat
    requires d <= ID_BITS
  {
    FromBytes(id) / Pow2(ID_BITS - d)
  }

  /** All identifiers begin with the same `d` bits. */
  ghost predicate SamePrefix(s: seq<Node>, d: nat)
    requires d <= ID_BITS
  {
    forall n, m | n in s && m in s :: Prefix(n.id, d) == Prefix(m.id, d)
  }

  /** One bit more: twice the prefix and the bit. */
  lemma NextBit(id: Id, d: nat)
    requires d < ID_BITS
    ensures Prefix(id, d + 1) / 2 == Prefix(id, d) && Prefix(id, d + 1) % 2 == BitAt(id, d)
  {
    var e := ID_BITS - 1 - d;
    BitAtIs(id, d);
    DivideTwice(FromBytes(id), Pow2(e), 2);
    assert Pow2(e + 1) == Pow2(e) * 2;
  }

  lemma NoBits(id: Id, e: nat)
    requires e == ID_BITS
    ensures FromBytes(id) / Pow2(e) == 0
  {
    QuotientIs(FromBytes(id), Pow2(e), 0, FromBytes(id));
  }

  lemma {:induction false} PrefixByBits(s: seq<Node>, d: nat)
    requires s != [] && d <= ID_BITS
    ensures SamePrefix(s, d) <==> forall i | 0 <= i < d :: AgreeAt(s, i)
    decreases d
  {
    if d == 0 {
      forall n | n in s ensures Prefix(n.id, 0) == 0 {
        NoBits(n.id, ID_BITS);
      }
    } else {
      PrefixByBits(s, d - 1);
      OneBitMore(s, d - 1);
    }
  }

  lemma OneBitMore(s: seq<Node>, d: nat)
    requires s != [] && d < ID_BITS
    ensures SamePrefix(s, d + 1) <==> SamePrefix(s, d) && AgreeAt(s, d)
  {
    forall n | n in s ensures Prefix(n.id, d + 1) / 2 == Prefix(n.id, d) && Prefix(n.id, d + 1) % 2 == BitAt(n.id, d) {
      NextBit(n.id, d);
    }
    if SamePrefix(s, d) && AgreeAt(s, d) {
      forall n, m | n in s && m in s ensures Prefix(n.id, d + 1) == Prefix(m.id, d + 1) {
        SameHalves(Prefix(n.id, d + 1), Prefix(m.id, d + 1));
      }
    }
    assert s[0] in s;
  }

  /** The depth is the length of the longest common prefix: the identifiers share their first `d` bits if and only
      if `d` is at most the depth. */
  lemma DepthExactly(s: seq<Node>, d: nat)
    requires s != [] && d <= ID_BITS
    ensures d <= Depth(s) <==> SamePrefix(s, d)
  {
    PrefixByBits(s, d);
    if |s| == 1 {
      assert forall n | n in s :: n == s[0];
    }
  }

  /** `d` is the length of the longest common prefix; an empty list counts as one without any. */
  ghost predicate IsShared(s: seq<Node>, d: nat) {
    && d <= ID_BITS && (s == [] ==> d == 0)
    && SamePrefix(s, d) && (s != [] && d < ID_BITS ==> !SamePrefix(s, d + 1))
  }

  /** A bucket may split if and only if it covers the owner or the length of the prefix that its primaries share is
      not a multiple of 5. */
  lemma MaySplitExactly(b: Bucket, local: nat, d: nat)
    requires IsShared(b.nodes, d)
    ensures MaySplit(b, local) <==> b.lo <= local <= b.hi || d % 5 != 0
  {
    SharedIsDepth(b.nodes, d);
  }

  lemma SharedIsDepth(s: seq<Node>, d: nat)
    requires IsShared(s, d)
    ensures Depth(s) == d
  {
    if s != [] {
      DepthExactly(s, d);
      if d < ID_BITS {
        DepthExactly(s, d + 1);
      }
    }
  }
}
