/** The bucket as the program keeps it: an object whose lists change in place. */
module KBuckets {
  import opened Nodes
  import opened Contacts
  import Buckets

  /** The first position of an identifier in a list. */
  method Position(s: seq<Node>, id: Id) returns (p: Option<nat>)
    ensures p.Some? ==> p.value < |s| && s[p.value].id == id
    ensures p.Some? ==> (forall i | 0 <= i < p.value :: s[i].id != id)
    ensures p.None? ==> forall n | n in s :: n.id != id
  {
    for i := 0 to |s|
      invariant forall j | 0 <= j < i :: s[j].id != id
    {
      if s[i].id == id {
        return Some(i);
      }
    }
    return None;
  }

  /** Take an identifier out of a list, if it is there. */
  method TakeOut(s: seq<Node>, id: Id) returns (r: seq<Node>, found: bool)
    requires NoDup(s)
    ensures r == Buckets.Without(s, id)
    ensures found <==> id in Ids(s)
  {
    var p := Position(s, id);
    if p.Some? {
      Buckets.RemoveAt(s, id, p.value);
      return s[..p.value] + s[p.value + 1..], true;
    }
    Buckets.WithoutFacts(s, id);
    return s, false;
  }

  /** Drop the oldest entries of a list above its cap. */
  method TrimFront(s: seq<Node>, cap: nat) returns (r: seq<Node>)
    ensures r == Buckets.Trim(s, cap)
  {
    r := s;
    while |r| > cap
      invariant |r| <= |s| && r == s[|s| - |r|..]
      invariant if |s| > cap then |r| >= cap else r == s
    {
      r := r[1..];
    }
  }

  class KBucket {
    const lo: nat
    const hi: nat
    const ksize: nat
    var nodes: seq<Node>
    var replacements: seq<Node>
    var lastUpdated: nat

    function View(): Buckets.Bucket
      reads this
    {
      Buckets.Bucket(lo, hi, nodes, replacements, lastUpdated)
    }

    ghost predicate Distinct()
      reads this
    {
      NoDup(nodes) && NoDup(replacements)
    }

    /** The object for a bucket that a table holds. */
    constructor Of(b: Buckets.Bucket, ksize: nat)
      ensures View() == b && this.ksize == ksize
    {
      this.lo, this.hi, this.ksize := b.lo, b.hi, ksize;
      nodes, replacements, lastUpdated := b.nodes, b.repl, b.updated;
    }

    constructor (lo: nat, hi: nat, ksize: nat, now: nat)
      ensures View() == Buckets.Bucket(lo, hi, [], [], now) && this.ksize == ksize
    {
      this.lo, this.hi, this.ksize := lo, hi, ksize;
      nodes, replacements, lastUpdated := [], [], now;
    }

    method AddNode(node: Node) returns (ok: bool)
      requires Distinct()
      modifies this
      ensures (View(), ok) == Buckets.AddNode(old(View()), node, ksize)
      ensures Buckets.Added(old(View()), node, ksize, View(), ok)
    {
      Buckets.AddExactly(View(), node, ksize);
      var rest, found := TakeOut(nodes, node.id);
      if found {
        nodes := rest + [node];
        return true;
      }
      if |nodes| < ksize {
        nodes := nodes + [node];
        return true;
      }
      var waiting, _ := TakeOut(replacements, node.id);
      replacements := TrimFront(waiting + [node], 5 * ksize);
      return false;
    }

    method RemoveNode(node: Node)
      requires Distinct()
      modifies this
      ensures View() == Buckets.RemoveNode(old(View()), node.id)
      ensures Buckets.Removed(old(View()), node.id, View())
    {
      Buckets.RemoveExactly(View(), node.id);
      replacements := Buckets.Without(replacements, node.id);
      var rest, found := TakeOut(nodes, node.id);
      if found {
        nodes := rest;
        if replacements != [] {
          var last := |replacements| - 1;
          nodes := nodes + [replacements[last]];
          replacements := replacements[..last];
        }
      }
    }

    /** Offer every contact of the bucket `b` to the half that covers it. */
    static method Spread(chain: seq<Node>, low: KBucket, high: KBucket, ghost b: Buckets.Bucket, ghost now: nat)
      requires low != high && low.ksize == high.ksize && b.WellFormed(low.ksize) && chain == b.nodes + b.repl
      requires low.View() == Buckets.Bucket(b.lo, low.hi, [], [], now)
      requires high.View() == Buckets.Bucket(low.hi + 1, b.hi, [], [], now)
      modifies low, high
      ensures low.View() == Buckets.Part(b, low.lo, low.hi, low.ksize, now)
      ensures high.View() == Buckets.Part(b, high.lo, high.hi, high.ksize, now)
    {
      for i := 0 to |chain|
        invariant low.View() == SpreadTo(b, i, low.lo, low.hi, low.ksize, now)
        invariant high.View() == SpreadTo(b, i, high.lo, high.hi, high.ksize, now)
      {
        var n := chain[i];
        SpreadStep(b, i, low.lo, low.hi, low.ksize, now);
        SpreadStep(b, i, high.lo, high.hi, high.ksize, now);
        if n.longId <= low.hi {
          var _ := low.AddNode(n);
        } else {
          var _ := high.AddNode(n);
        }
      }
      SpreadDone(b, low.lo, low.hi, low.ksize, now);
      SpreadDone(b, high.lo, high.hi, high.ksize, now);
    }

    /** Redistribute primaries and then replacements over two fresh halves. */
    method Split(now: nat) returns (low: KBucket, high: KBucket)
      requires View().WellFormed(ksize) && lo <= hi
      ensures fresh(low) && fresh(high) && low != high && low.ksize == high.ksize == ksize
      ensures low.View() == Buckets.LowHalf(View(), ksize, now)
      ensures high.View() == Buckets.HighHalf(View(), ksize, now)
    {
      var mid := lo + (hi - lo) / 2;
      low := new KBucket(lo, mid, ksize, now);
      high := new KBucket(mid + 1, hi, ksize, now);
      Spread(nodes + replacements, low, high, View(), now);
    }

    /** Bits shared by all primary identifiers. */
    method Depth() returns (d: nat)
      ensures d == Buckets.Depth(nodes)
    {
      if |nodes| < 2 {
        return if nodes == [] then 0 else |nodes[0].id| * 8;
      }
      d := 0;
      while d < Buckets.ID_BITS
        invariant d <= Buckets.ID_BITS
        invariant Buckets.AgreeFrom(nodes, 0) == Buckets.AgreeFrom(nodes, d)
      {
        var bit := Buckets.BitAt(nodes[0].id, d);
        for i := 1 to |nodes|
          invariant forall j | 0 <= j < i :: Buckets.BitAt(nodes[j].id, d) == bit
        {
          if Buckets.BitAt(nodes[i].id, d) != bit {
            return;
          }
        }
        d := d + 1;
      }
    }
  }

  lemma SpreadNoDup(chain: seq<Node>, i: nat, lo: nat, hi: nat)
    requires NoDup(chain) && i < |chain|
    ensures var s, n := Buckets.Within(chain[..i], lo, hi), chain[i];
      && NoDup(s) && |s| <= i
      && Buckets.Within(chain[..i + 1], lo, hi) == (if lo <= n.longId <= hi then s + [n] else s)
      && (lo <= n.longId <= hi ==> NoDup(s + [n]))
  {
    var n := chain[i];
    assert chain[..i + 1] == chain[..i] + [n];
    Buckets.WithinConcat(chain[..i], [n], lo, hi);
    Buckets.WithinNoDup(chain[..i], lo, hi);
    Buckets.WithinNoDup(chain[..i + 1], lo, hi);
  }

  /** The part [lo, hi] of a split after the first `i` contacts of the bucket. */
  ghost function SpreadTo(b: Buckets.Bucket, i: nat, lo: nat, hi: nat, k: nat, now: nat): Buckets.Bucket
    requires i <= |b.nodes + b.repl|
  {
    Buckets.Filled(lo, hi, Buckets.Within((b.nodes + b.repl)[..i], lo, hi), k, now)
  }

  lemma SpreadDone(b: Buckets.Bucket, lo: nat, hi: nat, k: nat, now: nat)
    ensures SpreadTo(b, |b.nodes + b.repl|, lo, hi, k, now) == Buckets.Part(b, lo, hi, k, now)
  {
    var chain := b.nodes + b.repl;
    assert chain[..|chain|] == chain;
  }

  lemma FilledNoDup(lo: nat, hi: nat, s: seq<Node>, k: nat, now: nat)
    requires NoDup(s)
    ensures var p := Buckets.Filled(lo, hi, s, k, now); NoDup(p.nodes) && NoDup(p.repl)
  {
  }

  /** One contact of a split goes to the part that covers it. */
  lemma SpreadStep(b: Buckets.Bucket, i: nat, lo: nat, hi: nat, k: nat, now: nat)
    requires b.WellFormed(k) && i < |b.nodes + b.repl|
    ensures var n, p := (b.nodes + b.repl)[i], SpreadTo(b, i, lo, hi, k, now);
      && b.Covers(n.longId) && NoDup(p.nodes) && NoDup(p.repl)
      && SpreadTo(b, i + 1, lo, hi, k, now) == if lo <= n.longId <= hi then Buckets.AddNode(p, n, k).0 else p
  {
    var chain := b.nodes + b.repl;
    assert chain[i] in b.nodes || chain[i] in b.repl;
    NoDupConcat(b.nodes, b.repl);
    SpreadNoDup(chain, i, lo, hi);
    FilledNoDup(lo, hi, Buckets.Within(chain[..i], lo, hi), k, now);
    if lo <= chain[i].longId <= hi {
      Buckets.FilledAdd(lo, hi, Buckets.Within(chain[..i], lo, hi), chain[i], k, now);
    }
  }
}
