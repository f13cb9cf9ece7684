/** Sorting by a composite key, as the standard library's sort_by_key and ordered maps provide it. */
module Ordering {

  /** Compared component by component; a reversed component is negated. */
  datatype Key = Key(first: int, second: int, third: int)

  predicate Less(a: Key, b: Key) {
    a.first < b.first
    || (a.first == b.first && (a.second < b.second
                               || (a.second == b.second && a.third < b.third)))
  }

  ghost predicate Sorted<T>(s: seq<T>, key: T -> Key) {
    forall i, j :: 0 <= i < j < |s| ==> !Less(key(s[j]), key(s[i]))
  }

  ghost predicate StrictlySorted<T>(s: seq<T>, key: T -> Key) {
    forall i, j :: 0 <= i < j < |s| ==> Less(key(s[i]), key(s[j]))
  }

  ghost predicate DistinctKeys<T>(s: seq<T>, key: T -> Key) {
    forall i, j :: 0 <= i < j < |s| ==> key(s[i]) != key(s[j])
  }

  /** Places `x` after every element whose key is not greater. */
  function Insert<T>(x: T, s: seq<T>, key: T -> Key): (r: seq<T>)
    ensures |r| == |s| + 1
  {
    if s == [] || Less(key(x), key(s[0])) then [x] + s
    else [s[0]] + Insert(x, s[1..], key)
  }

  function Sort<T>(s: seq<T>, key: T -> Key): (r: seq<T>)
    ensures |r| == |s|
  {
    if s == [] then [] else Insert(s[|s| - 1], Sort(s[..|s| - 1], key), key)
  }

  lemma {:induction false} InsertAdds<T>(x: T, s: seq<T>, key: T -> Key)
    ensures multiset(Insert(x, s, key)) == multiset(s) + multiset{x}
  {
    if s == [] {
    } else {
      assert s == [s[0]] + s[1..];
      if !Less(key(x), key(s[0])) { InsertAdds(x, s[1..], key); }
    }
  }

  /** Everything in the result was there before or is the new element. */
  lemma {:induction false} InsertedFrom<T>(x: T, s: seq<T>, key: T -> Key, k: nat)
    requires k <= |s|
    ensures var r := Insert(x, s, key); r[k] == x || (k < |s| && r[k] == s[k]) || (k > 0 && r[k] == s[k - 1])
  {
    if s != [] && !Less(key(x), key(s[0])) && k > 0 { InsertedFrom(x, s[1..], key, k - 1); }
  }

  lemma {:induction false} InsertKeeps<T>(x: T, s: seq<T>, key: T -> Key)
    requires Sorted(s, key)
    ensures Sorted(Insert(x, s, key), key)
  {
    if s != [] && !Less(key(x), key(s[0])) {
      var rest := Insert(x, s[1..], key);
      InsertKeeps(x, s[1..], key);
      forall k | 0 <= k < |rest|
        ensures !Less(key(rest[k]), key(s[0]))
      {
        InsertedFrom(x, s[1..], key, k);
      }
    }
  }

  lemma {:induction false} SortSorts<T>(s: seq<T>, key: T -> Key)
    ensures Sorted(Sort(s, key), key)
    ensures multiset(Sort(s, key)) == multiset(s)
  {
    if s == [] {
    } else {
      assert s == s[..|s| - 1] + [s[|s| - 1]];
      SortSorts(s[..|s| - 1], key);
      InsertAdds(s[|s| - 1], Sort(s[..|s| - 1], key), key);
      InsertKeeps(s[|s| - 1], Sort(s[..|s| - 1], key), key);
    }
  }

  lemma {:induction false} SortMember<T>(s: seq<T>, key: T -> Key, x: T)
    ensures x in Sort(s, key) <==> x in s
  {
    SortSorts(s, key);
    assert x in Sort(s, key) <==> x in multiset(Sort(s, key));
    assert x in s <==> x in multiset(s);
  }

  lemma {:induction false} SortMembers<T>(s: seq<T>, key: T -> Key)
    ensures forall x :: x in Sort(s, key) <==> x in s
  {
    forall x
      ensures x in Sort(s, key) <==> x in s
    {
      SortMember(s, key, x);
    }
  }

  /** An element appears twice in `s` only at positions with equal keys. */
  lemma {:induction false} DistinctCount<T>(s: seq<T>, key: T -> Key, i: nat, j: nat)
    requires i < j < |s| && multiset(s)[s[i]] <= 1
    ensures s[i] != s[j]
  {
    assert s == s[..j] + s[j..];
    assert s[i] in s[..j] && s[j] in s[j..];
    assert multiset(s) == multiset(s[..j]) + multiset(s[j..]);
    assert multiset(s[..j])[s[i]] >= 1 && multiset(s[j..])[s[j]] >= 1;
  }

  lemma {:induction false} DistinctIsOnce<T>(s: seq<T>, key: T -> Key, x: T)
    requires DistinctKeys(s, key)
    ensures multiset(s)[x] <= 1
  {
    if s == [] {
    } else {
      var n := |s| - 1;
      assert s == s[..n] + [s[n]];
      DistinctIsOnce(s[..n], key, x);
      if s[n] == x {
        forall i | 0 <= i < n
          ensures s[..n][i] != x
        {
          assert key(s[i]) != key(s[n]);
        }
      }
    }
  }

  /** With distinct keys the sorted arrangement is strict, so it does not depend on stability. */
  lemma {:induction false} SortStrict<T>(s: seq<T>, key: T -> Key)
    requires DistinctKeys(s, key)
    ensures StrictlySorted(Sort(s, key), key)
    ensures forall x :: x in Sort(s, key) <==> x in s
  {
    var r := Sort(s, key);
    SortSorts(s, key);
    SortMembers(s, key);
    forall i, j | 0 <= i < j < |r|
      ensures Less(key(r[i]), key(r[j]))
    {
      DistinctIsOnce(s, key, r[i]);
      DistinctCount(r, key, i, j);
      var x, y := r[i], r[j];
      assert x in r && y in r;
      SortMember(s, key, x);
      SortMember(s, key, y);
      var a :| 0 <= a < |s| && s[a] == x;
      var b :| 0 <= b < |s| && s[b] == y;
      assert key(s[a]) != key(s[b]);
      assert !Less(key(r[j]), key(r[i]));
    }
  }

  /** Two strictly sorted sequences with the same elements are the same sequence. */
  lemma {:induction false} StrictIsUnique<T>(a: seq<T>, b: seq<T>, key: T -> Key)
    requires StrictlySorted(a, key) && StrictlySorted(b, key)
    requires forall x :: x in a <==> x in b
    ensures a == b
  {
    assert |b| > 0 ==> b[0] in a;
    assert |a| > 0 ==> a[0] in b;
    if a == [] {
    } else {
      HeadsMeet(a, b, key);
      forall x
        ensures x in a[1..] <==> x in b[1..]
      {
        SplitHead(a, key, x);
        SplitHead(b, key, x);
      }
      StrictIsUnique(a[1..], b[1..], key);
      assert a == [a[0]] + a[1..] && b == [b[0]] + b[1..];
    }
  }

  lemma {:induction false} HeadsMeet<T>(a: seq<T>, b: seq<T>, key: T -> Key)
    requires a != [] && b != []
    requires StrictlySorted(a, key) && StrictlySorted(b, key)
    requires forall x :: x in a <==> x in b
    ensures a[0] == b[0]
  {
    assert a[0] in b && b[0] in a;
    var i :| 0 <= i < |b| && b[i] == a[0];
    var j :| 0 <= j < |a| && a[j] == b[0];
    assert i > 0 ==> Less(key(b[0]), key(a[0]));
    assert j > 0 ==> Less(key(a[0]), key(b[0]));
  }

  lemma {:induction false} SplitHead<T>(s: seq<T>, key: T -> Key, x: T)
    requires s != [] && StrictlySorted(s, key)
    ensures x in s[1..] <==> x in s && x != s[0]
  {
    if x in s[1..] {
      var i :| 0 <= i < |s[1..]| && s[1..][i] == x;
      assert Less(key(s[0]), key(s[i + 1]));
    }
    if x in s && x != s[0] {
      var i :| 0 <= i < |s| && s[i] == x;
      assert s[1..][i - 1] == x;
    }
  }
}
