/**
 * `List<T>.Sort` with a comparison that orders by an integer key.  The
 * library sort is not stable; the model uses the stable insertion order,
 * which is one of the orders the library may produce.
 */
module Sorting {
  predicate SortedBy<T>(s: seq<T>, key: T -> int)
  {
    forall i, j :: 0 <= i < j < |s| ==> key(s[i]) <= key(s[j])
  }

  /** x placed after every element whose key is not larger than its own. */
  function Insert<T>(x: T, s: seq<T>, key: T -> int): (r: seq<T>)
    ensures multiset(r) == multiset(s) + multiset{x}
    ensures |r| == |s| + 1 && (r[0] == x || (|s| > 0 && r[0] == s[0]))
  {
    if s == [] then [x]
    else if key(x) < key(s[0]) then [x] + s
    else
      assert s == [s[0]] + s[1..];
      [s[0]] + Insert(x, s[1..], key)
  }

  /** Inserting into a sorted sequence keeps it sorted. */
  lemma {:induction false} InsertSorted<T>(x: T, s: seq<T>, key: T -> int)
    requires SortedBy(s, key)
    ensures SortedBy(Insert(x, s, key), key)
    decreases |s|
  {
    if s != [] && key(x) >= key(s[0]) {
      var tail := Insert(x, s[1..], key);
      assert SortedBy(s[1..], key);
      InsertSorted(x, s[1..], key);
      assert forall j :: 0 <= j < |tail| ==> key(s[0]) <= key(tail[0]) <= key(tail[j]);
    }
  }

  /** The elements ordered by ascending key. */
  function Sort<T>(s: seq<T>, key: T -> int): (r: seq<T>)
    ensures |r| == |s|
  {
    if s == [] then [] else Insert(s[|s| - 1], Sort(s[..|s| - 1], key), key)
  }

  /** The sorted sequence is ordered by key and holds exactly the same elements. */
  lemma {:induction false} SortSorts<T>(s: seq<T>, key: T -> int)
    ensures SortedBy(Sort(s, key), key)
    ensures multiset(Sort(s, key)) == multiset(s)
  {
    SortOrders(s, key);
    SortPermutes(s, key);
  }

  lemma {:induction false} SortOrders<T>(s: seq<T>, key: T -> int)
    ensures SortedBy(Sort(s, key), key)
  {
    if s != [] {
      var p := s[..|s| - 1];
      SortOrders(p, key);
      InsertSorted(s[|s| - 1], Sort(p, key), key);
    }
  }

  lemma {:induction false} SortPermutes<T>(s: seq<T>, key: T -> int)
    ensures multiset(Sort(s, key)) == multiset(s)
  {
    if s != [] {
      var p, x := s[..|s| - 1], s[|s| - 1];
      SortPermutes(p, key);
      assert s == p + [x];
    }
  }

  /** A sequence already in order is left as it is. */
  lemma {:induction false} SortKeepsSorted<T>(s: seq<T>, key: T -> int)
    requires SortedBy(s, key)
    ensures Sort(s, key) == s
  {
    if s != [] {
      var n := |s|;
      var p := s[..n - 1];
      assert SortedBy(p, key);
      SortKeepsSorted(p, key);
      InsertLast(s[n - 1], p, key);
      assert p + [s[n - 1]] == s;
    }
  }

  /** Inserting an element no smaller than every key puts it last. */
  lemma {:induction false} InsertLast<T>(x: T, s: seq<T>, key: T -> int)
    requires forall i :: 0 <= i < |s| ==> key(s[i]) <= key(x)
    ensures Insert(x, s, key) == s + [x]
    decreases |s|
  {
    if s != [] {
      InsertLast(x, s[1..], key);
      assert s == [s[0]] + s[1..];
    }
  }

  /** No two elements share a key. */
  predicate KeysDistinct<T>(s: seq<T>, key: T -> int)
  {
    forall i, j :: 0 <= i < j < |s| ==> key(s[i]) != key(s[j])
  }

  /** Ordered by strictly ascending key. */
  predicate StrictlySortedBy<T>(s: seq<T>, key: T -> int)
  {
    forall i, j :: 0 <= i < j < |s| ==> key(s[i]) < key(s[j])
  }

  /** Inserting an element with a new key into a strictly ordered sequence keeps it strictly ordered. */
  lemma {:induction false} InsertStrict<T>(x: T, s: seq<T>, key: T -> int)
    requires StrictlySortedBy(s, key) && forall y :: y in s ==> key(y) != key(x)
    ensures StrictlySortedBy(Insert(x, s, key), key)
    decreases |s|
  {
    if s != [] && key(x) >= key(s[0]) {
      var rest := s[1..];
      var tail := Insert(x, rest, key);
      assert forall y :: y in rest ==> y in s;
      InsertStrict(x, rest, key);
      forall j | 0 <= j < |tail|
        ensures key(s[0]) < key(tail[j])
      {
        InsertMember(x, rest, key, j);
        if tail[j] != x {
          var i :| 0 <= i < |rest| && rest[i] == tail[j];
          assert s[i + 1] == tail[j];
        }
      }
      ConsStrict(s[0], tail, key);
    }
  }

  /** An element with a smaller key than all of a strictly ordered sequence can go before it. */
  lemma {:induction false} ConsStrict<T>(a: T, s: seq<T>, key: T -> int)
    requires StrictlySortedBy(s, key) && forall j :: 0 <= j < |s| ==> key(a) < key(s[j])
    ensures StrictlySortedBy([a] + s, key)
  {
    var r := [a] + s;
    forall i, j | 0 <= i < j < |r|
      ensures key(r[i]) < key(r[j])
    {
      assert r[j] == s[j - 1];
      if i > 0 {
        assert r[i] == s[i - 1];
      }
    }
  }

  /** Every element of an insertion is the inserted one or came from the sequence. */
  lemma {:induction false} InsertMember<T>(x: T, s: seq<T>, key: T -> int, j: nat)
    requires j < |Insert(x, s, key)|
    ensures Insert(x, s, key)[j] == x || Insert(x, s, key)[j] in s
  {
    var r := Insert(x, s, key);
    assert r[j] in multiset(r);
  }

  /** Sorting elements whose keys are all different orders them by strictly ascending key. */
  lemma {:induction false} SortStrict<T>(s: seq<T>, key: T -> int)
    requires KeysDistinct(s, key)
    ensures StrictlySortedBy(Sort(s, key), key)
  {
    if s != [] {
      var p, x := s[..|s| - 1], s[|s| - 1];
      SortStrict(p, key);
      SortSorts(p, key);
      forall y | y in Sort(p, key)
        ensures key(y) != key(x)
      {
        assert y in multiset(Sort(p, key));
        var i :| 0 <= i < |p| && p[i] == y;
        assert s[i] == y;
      }
      InsertStrict(x, Sort(p, key), key);
    }
  }
}
