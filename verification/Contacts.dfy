/** Lists of contacts and the identifiers in them. */
module Contacts {
  import opened Nodes

  function Ids(s: seq<Node>): set<Id> {
    set n | n in s :: n.id
  }

  ghost predicate NoDup(s: seq<Node>) {
    forall i, j | 0 <= i < j < |s| :: s[i].id != s[j].id
  }

  lemma NoDupConcat(a: seq<Node>, b: seq<Node>)
    ensures Ids(a + b) == Ids(a) + Ids(b)
    ensures NoDup(a + b) <==> NoDup(a) && NoDup(b) && Ids(a) !! Ids(b)
  {
    var c := a + b;
    if NoDup(c) {
      assert forall i | 0 <= i < |a| :: c[i] == a[i];
      assert forall i | 0 <= i < |b| :: c[|a| + i] == b[i];
      forall m, n | m in a && n in b ensures m.id != n.id {
        var i :| 0 <= i < |a| && a[i] == m;
        var j :| 0 <= j < |b| && b[j] == n;
        assert c[i].id != c[|a| + j].id;
      }
    }
    if NoDup(a) && NoDup(b) && Ids(a) !! Ids(b) {
      forall i, j | 0 <= i < j < |c| ensures c[i].id != c[j].id {
        if i < |a| <= j {
          assert c[i].id in Ids(a) && c[j].id in Ids(b);
        }
      }
    }
  }

  lemma {:induction false} CountIds(s: seq<Node>)
    requires NoDup(s)
    ensures |Ids(s)| == |s|
  {
    if s != [] {
      assert s == [s[0]] + s[1..];
      NoDupConcat([s[0]], s[1..]);
      CountIds(s[1..]);
      assert Ids(s) == {s[0].id} + Ids(s[1..]);
    }
  }

  lemma SubsetSize<T>(a: set<T>, b: set<T>)
    requires a <= b
    ensures |a| <= |b|
    ensures |a| == |b| ==> a == b
  {
    assert |b - a| == |b| - |a|;
  }

  lemma {:induction false} DistinctCount(s: seq<Node>)
    ensures |Ids(s)| <= |s|
    ensures |Ids(s)| == |s| ==> NoDup(s)
  {
    if s != [] {
      DistinctCount(s[1..]);
      assert s == [s[0]] + s[1..];
      NoDupConcat([s[0]], s[1..]);
      assert Ids([s[0]]) == {s[0].id};
    }
  }

  lemma PermutationNoDup(a: seq<Node>, b: seq<Node>)
    requires multiset(a) == multiset(b) && NoDup(a)
    ensures NoDup(b) && Ids(b) == Ids(a) && |b| == |a|
  {
    assert |a| == |multiset(a)| == |multiset(b)| == |b|;
    assert forall n :: n in a <==> n in multiset(a);
    assert forall n :: n in b <==> n in multiset(b);
    assert Ids(b) == Ids(a);
    CountIds(a);
    DistinctCount(b);
  }

  lemma SameMembers(a: seq<Node>, b: seq<Node>)
    requires multiset(a) == multiset(b)
    ensures forall n :: n in a <==> n in b
  {
    assert forall n :: n in a <==> n in multiset(a);
    assert forall n :: n in b <==> n in multiset(b);
  }
}
