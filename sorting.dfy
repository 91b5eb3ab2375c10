/** Python's ordering of str values (code point by code point, a proper prefix first) and a stable
    sort by a string key, as list.sort(key=...) does for the division and team lists. */
module Sorting {

  /** a <= b for Python strings. */
  predicate StrLeq(a: string, b: string)
    decreases |a|
  {
    if a == [] then true
    else if b == [] then false
    else if a[0] != b[0] then a[0] < b[0]
    else StrLeq(a[1..], b[1..])
  }

  lemma {:induction false} StrLeqRefl(a: string)
    ensures StrLeq(a, a)
    decreases |a|
  {
    if a != [] {
      StrLeqRefl(a[1..]);
    }
  }

  lemma {:induction false} StrLeqTotal(a: string, b: string)
    ensures StrLeq(a, b) || StrLeq(b, a)
    decreases |a|
  {
    if a != [] && b != [] && a[0] == b[0] {
      StrLeqTotal(a[1..], b[1..]);
    }
  }

  lemma {:induction false} StrLeqTrans(a: string, b: string, c: string)
    requires StrLeq(a, b) && StrLeq(b, c)
    ensures StrLeq(a, c)
    decreases |a|
  {
    if a != [] && b != [] && c != [] && a[0] == b[0] && b[0] == c[0] {
      StrLeqTrans(a[1..], b[1..], c[1..]);
    }
  }

  lemma {:induction false} StrLeqAntisym(a: string, b: string)
    requires StrLeq(a, b) && StrLeq(b, a)
    ensures a == b
    decreases |a|
  {
    if a != [] {
      StrLeqAntisym(a[1..], b[1..]);
      assert a == [a[0]] + a[1..] && b == [b[0]] + b[1..];
    }
  }

  /** The list is in nondecreasing key order. */
  predicate SortedBy<T>(s: seq<T>, key: T -> string) {
    forall i, j :: 0 <= i < j < |s| ==> StrLeq(key(s[i]), key(s[j]))
  }

  /** x placed after every element whose key is not greater than its own (so equal keys keep their
      order), in a list already sorted by key. */
  function InsertBy<T>(s: seq<T>, x: T, key: T -> string): seq<T>
    decreases |s|
  {
    if s == [] then [x]
    else if StrLeq(key(s[|s| - 1]), key(x)) then s + [x]
    else InsertBy(s[..|s| - 1], x, key) + [s[|s| - 1]]
  }

  lemma {:induction false} InsertByKeeps<T>(s: seq<T>, x: T, key: T -> string)
    ensures multiset(InsertBy(s, x, key)) == multiset(s) + multiset{x}
    ensures |InsertBy(s, x, key)| == |s| + 1
    decreases |s|
  {
    if s != [] && !StrLeq(key(s[|s| - 1]), key(x)) {
      var n := |s| - 1;
      InsertByKeeps(s[..n], x, key);
      assert s == s[..n] + [s[n]];
    }
  }

  /** Every key in the list is at most k. */
  predicate AllAtMost<T>(s: seq<T>, key: T -> string, k: string) {
    forall i :: 0 <= i < |s| ==> StrLeq(key(s[i]), k)
  }

  lemma {:induction false} InsertBySorted<T>(s: seq<T>, x: T, key: T -> string)
    requires SortedBy(s, key)
    ensures SortedBy(InsertBy(s, x, key), key)
    ensures forall k :: AllAtMost(s, key, k) && StrLeq(key(x), k) ==> AllAtMost(InsertBy(s, x, key), key, k)
    decreases |s|
  {
    InsertByKeeps(s, x, key);
    if s == [] {
    } else if StrLeq(key(s[|s| - 1]), key(x)) {
      var r := s + [x];
      forall i, j | 0 <= i < j < |r|
        ensures StrLeq(key(r[i]), key(r[j]))
      {
        if j == |s| && i < |s| - 1 {
          StrLeqTrans(key(s[i]), key(s[|s| - 1]), key(x));
        }
      }
    } else {
      var n := |s| - 1;
      var front := s[..n];
      var last := s[n];
      assert SortedBy(front, key);
      InsertBySorted(front, x, key);
      InsertByKeeps(front, x, key);
      var ins := InsertBy(front, x, key);
      StrLeqTotal(key(last), key(x));
      assert AllAtMost(front, key, key(last));
      assert AllAtMost(ins, key, key(last));
      var r := ins + [last];
      forall i, j | 0 <= i < j < |r|
        ensures StrLeq(key(r[i]), key(r[j]))
      {
        if j < |ins| {
          assert r[i] == ins[i] && r[j] == ins[j];
        }
      }
      forall k | AllAtMost(s, key, k) && StrLeq(key(x), k)
        ensures AllAtMost(r, key, k)
      {
        assert AllAtMost(front, key, k);
        assert StrLeq(key(last), k);
      }
    }
  }

  /** list.sort(key=key): the list sorted by key, with the same elements. */
  method SortBy<T>(s: seq<T>, key: T -> string) returns (r: seq<T>)
    ensures SortedBy(r, key)
    ensures multiset(r) == multiset(s)
    ensures |r| == |s|
  {
    r := [];
    var i := 0;
    while i < |s|
      invariant 0 <= i <= |s|
      invariant SortedBy(r, key)
      invariant multiset(r) == multiset(s[..i])
      invariant |r| == i
    {
      InsertBySorted(r, s[i], key);
      InsertByKeeps(r, s[i], key);
      r := InsertBy(r, s[i], key);
      assert s[..i + 1] == s[..i] + [s[i]];
      i := i + 1;
    }
    assert s[..|s|] == s;
  }
}
