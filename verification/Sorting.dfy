/** Sorting contacts by a key, as the program does with distances. */
module Sorting {
  import opened Nodes

  ghost predicate Ascending(s: seq<Node>, key: Node -> nat) {
    forall i, j | 0 <= i < j < |s| :: key(s[i]) <= key(s[j])
  }

  function Place(s: seq<Node>, n: Node, key: Node -> nat): (r: seq<Node>)
    ensures multiset(r) == multiset(s) + multiset{n} && |r| == |s| + 1
  {
    if s == [] || key(n) <= key(s[0]) then [n] + s
    else
      assert s == [s[0]] + s[1..];
      [s[0]] + Place(s[1..], n, key)
  }

  lemma {:induction false} PlaceAscends(s: seq<Node>, n: Node, key: Node -> nat)
    requires Ascending(s, key)
    ensures Ascending(Place(s, n, key), key)
  {
    if s != [] && key(n) > key(s[0]) {
      var rest := Place(s[1..], n, key);
      PlaceAscends(s[1..], n, key);
      forall i | 0 <= i < |rest| ensures key(s[0]) <= key(rest[i]) {
        assert rest[i] in multiset(rest);
        assert rest[i] == n || rest[i] in s[1..];
      }
    }
  }

  /** The contacts in ascending order of the key. */
  function SortByKey(s: seq<Node>, key: Node -> nat): (r: seq<Node>)
    ensures multiset(r) == multiset(s) && |r| == |s|
    ensures Ascending(r, key)
  {
    if s == [] then []
    else
      assert s == [s[0]] + s[1..];
      PlaceAscends(SortByKey(s[1..], key), s[0], key);
      Place(SortByKey(s[1..], key), s[0], key)
  }
}
