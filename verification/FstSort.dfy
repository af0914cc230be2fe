/** Sorting bytes with bit 5 inverted, as the stream cipher does. */
module FstSort {
  /** What two bytes are compared by. */
  function Key(b: bv8): int {
    (b ^ 0x20) as int
  }

  lemma KeyInjective(a: bv8, b: bv8)
    ensures Key(a) == Key(b) ==> a == b
  {
  }

  ghost predicate Ordered(s: seq<bv8>) {
    forall i, j :: 0 <= i < j < |s| ==> Key(s[i]) <= Key(s[j])
  }

  function Insert(b: bv8, s: seq<bv8>): (r: seq<bv8>)
    ensures multiset(r) == multiset(s) + multiset{b} && |r| == |s| + 1
  {
    if s == [] then [b]
    else if Key(b) <= Key(s[0]) then [b] + s
    else
      assert s == [s[0]] + s[1..];
      [s[0]] + Insert(b, s[1..])
  }

  /** The bytes in order. Distinct bytes have distinct keys, so that any
      sorting procedure gives this result. */
  function Sort(s: seq<bv8>): (r: seq<bv8>)
    ensures multiset(r) == multiset(s) && |r| == |s|
  {
    if s == [] then [] else
      assert s == [s[0]] + s[1..];
      Insert(s[0], Sort(s[1..]))
  }

  lemma Member(x: bv8, s: seq<bv8>) returns (k: nat)
    requires x in multiset(s)
    ensures k < |s| && s[k] == x
  {
    k :| 0 <= k < |s| && s[k] == x;
  }

  lemma {:induction false} InsertOrdered(b: bv8, s: seq<bv8>)
    requires Ordered(s)
    ensures Ordered(Insert(b, s))
  {
    hide Key;
    if s != [] && Key(b) > Key(s[0]) {
      var u := s[1..];
      InsertOrdered(b, u);
      LeadingKey(s[0], b, u, Insert(b, u));
    }
  }

  lemma LeadingKey(x: bv8, b: bv8, u: seq<bv8>, t: seq<bv8>)
    requires Key(x) < Key(b) && Ordered([x] + u) && Ordered(t) && multiset(t) == multiset(u) + multiset{b}
    ensures Ordered([x] + t)
  {
    hide Key;
    forall i | 0 <= i < |t|
      ensures Key(x) <= Key(t[i])
    {
      assert t[i] in multiset(t);
      if t[i] != b {
        var k := Member(t[i], u);
        assert ([x] + u)[0] == x && ([x] + u)[k + 1] == t[i];
      }
    }
  }

  lemma {:induction false} SortOrdered(s: seq<bv8>)
    ensures Ordered(Sort(s))
  {
    if s != [] {
      SortOrdered(s[1..]);
      InsertOrdered(s[0], Sort(s[1..]));
    }
  }

  /** Two ordered arrangements of the same bytes are the same. */
  lemma {:induction false} OrderUnique(s: seq<bv8>, t: seq<bv8>)
    requires Ordered(s) && Ordered(t) && multiset(s) == multiset(t)
    ensures s == t
    decreases |s|
  {
    hide Key, Ordered;
    assert |s| == |multiset(s)| == |multiset(t)| == |t|;
    if s != [] {
      SameFirst(s, t);
      Rest(s);
      Rest(t);
      OrderUnique(s[1..], t[1..]);
      assert s == [s[0]] + s[1..] && t == [t[0]] + t[1..];
    }
  }

  lemma Rest(s: seq<bv8>)
    requires s != []
    ensures multiset(s[1..]) == multiset(s) - multiset{s[0]}
    ensures Ordered(s) ==> Ordered(s[1..])
  {
    hide Key;
    assert s == [s[0]] + s[1..];
  }

  lemma SameFirst(s: seq<bv8>, t: seq<bv8>)
    requires Ordered(s) && Ordered(t) && multiset(s) == multiset(t) && s != [] && t != []
    ensures s[0] == t[0]
  {
    hide Key;
    assert s[0] in multiset(s) && t[0] in multiset(t);
    var i := Member(s[0], t);
    var j := Member(t[0], s);
    KeyInjective(s[0], t[0]);
  }

  /** Any ordered rearrangement is the sorted one. */
  lemma AnySort(s: seq<bv8>, r: seq<bv8>)
    requires Ordered(r) && multiset(r) == multiset(s)
    ensures r == Sort(s)
  {
    SortOrdered(s);
    OrderUnique(r, Sort(s));
  }
}
